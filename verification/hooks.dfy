/**
 * `ns hooks install` and `ns hooks remove`: adding the incremental
 * re-indexing line to a git hook and taking it out again.
 *
 * A hook file is an `Option<string>`: `None` when it does not exist. The file
 * system step that fails during a call, if any, is a parameter; the file
 * after the call is part of the outcome.
 */
module Hooks {
  import opened Common
  import opened Text

  /** Comment line that marks the lines ns added. */
  const Marker: string := "# ns: auto-generated"

  /** The hook payload: incremental indexing in the background. */
  const HookLine: string := "ns index --incremental &"

  /** What an install appends to an existing shell hook. */
  const Appendix: string := "\n" + Marker + "\n" + HookLine + "\n"

  /** The shell a created hook runs under, and its shebang line. */
  const ShPath: string := "/bin/sh"
  const Shebang: string := "#!" + ShPath

  /** The hook an install writes where none exists. */
  const CreatedHook: string := Shebang + "\n" + Marker + "\n" + HookLine + "\n"

  /** Interpreters named by a full path that count as a shell. */
  const DirectShells: set<string> := {"/bin/sh", "/bin/bash", "/bin/zsh", "/usr/bin/sh", "/usr/bin/bash", "/usr/bin/zsh"}

  /** Shell names accepted after `/usr/bin/env`. */
  const EnvShells: set<string> := {"sh", "bash", "zsh"}

  const Env: string := "/usr/bin/env"

  /** A file system step that can fail. */
  datatype IoStep = ReadFile | WriteFile | SetExecutable | RemoveFile

  datatype HookResult = Created | Appended | AlreadyPresent | NotShellScript | InstallFailed(step: IoStep)

  datatype RemoveResult = Deleted | Cleaned | NotPresent | RemoveFailed(step: IoStep)

  /** What a call reports, and the hook file it leaves behind. */
  datatype Outcome<R> = Outcome(result: R, file: Option<string>)

  // ── Shell detection ───────────────────────────────────────────────────────

  /** The shebang's words name a shell: a shell path, or `env` followed by a shell name. */
  predicate ShellInterpreter(words: seq<string>)
  {
    var interpreter := if |words| > 0 then words[0] else "";
    interpreter in DirectShells || (interpreter == Env && |words| >= 2 && words[1] in EnvShells)
  }

  /**
   * The first line is a shebang (flags allowed) whose interpreter is a shell;
   * so only a text that starts with `#!` can be a shell script.
   */
  predicate IsShellScript(content: string)
    ensures IsShellScript(content) ==> StartsWith(content, "#!")
  {
    var ls := Lines(content);
    var first := |ls| > 0 && StartsWith(ls[0], "#!");
    if first then
      FirstLinePrefix(content);
      assert ls[0][..2] == content[..2];
      ShellInterpreter(SplitWhitespace(Trim(ls[0][2..])))
    else false
  }

  /** Words without whitespace contain neither a line feed nor a carriage return. */
  lemma WordsNoBreaks(words: seq<string>)
    requires forall i, k :: 0 <= i < |words| && 0 <= k < |words[i]| ==> !IsWhitespace(words[i][k])
    ensures '\n' !in Join(words, " ") && '\r' !in Join(words, " ")
  {
    forall i | 0 <= i < |words|
      ensures '\n' !in words[i] && '\r' !in words[i]
    {
      assert forall k :: 0 <= k < |words[i]| ==> words[i][k] != '\n' && words[i][k] != '\r';
    }
    JoinFree(words, " ", '\n');
    JoinFree(words, " ", '\r');
  }

  /**
   * A hook whose first line is `#!` and whitespace-separated words is a shell
   * script exactly when the first word is a shell path, or is `/usr/bin/env`
   * followed by a shell name; flags and the rest of the file do not matter.
   */
  lemma ShebangWords(words: seq<string>, body: string)
    requires |words| > 0
    requires forall i :: 0 <= i < |words| ==> |words[i]| > 0
    requires forall i, k :: 0 <= i < |words| && 0 <= k < |words[i]| ==> !IsWhitespace(words[i][k])
    ensures IsShellScript("#!" + Join(words, " ") + "\n" + body) <==>
      words[0] in DirectShells || (words[0] == Env && |words| >= 2 && words[1] in EnvShells)
  {
    var head := "#!" + Join(words, " ");
    ShebangFirstLine(words, body);
    ShebangReadsBack(words);
    assert Lines(head + "\n" + body)[0] == head;
  }

  /** The first line of such a hook is the shebang, whatever follows it. */
  lemma ShebangFirstLine(words: seq<string>, body: string)
    requires forall i, k :: 0 <= i < |words| && 0 <= k < |words[i]| ==> !IsWhitespace(words[i][k])
    ensures |Lines("#!" + Join(words, " ") + "\n" + body)| > 0
    ensures Lines("#!" + Join(words, " ") + "\n" + body)[0] == "#!" + Join(words, " ")
  {
    var head := "#!" + Join(words, " ");
    WordsNoBreaks(words);
    assert '\n' !in head && '\r' !in head;
    LinesCons(head, body);
  }

  /** The words after `#!` read back as they were written. */
  lemma ShebangReadsBack(words: seq<string>)
    requires |words| > 0
    requires forall i :: 0 <= i < |words| ==> |words[i]| > 0
    requires forall i, k :: 0 <= i < |words| && 0 <= k < |words[i]| ==> !IsWhitespace(words[i][k])
    ensures SplitWhitespace(Trim(("#!" + Join(words, " "))[2..])) == words
  {
    var j := Join(words, " ");
    assert ("#!" + j)[2..] == j;
    JoinEnds(words, " ");
    TrimNoop(j);
    SplitWhitespaceOfJoin(words);
  }

  // ── Install ───────────────────────────────────────────────────────────────

  /** The hook line occurs at exactly one position. */
  ghost predicate OccursOnce(s: string, p: string)
  {
    exists i: nat :: OccursAt(s, p, i) && forall j: nat :: OccursAt(s, p, j) ==> j == i
  }

  /**
   * Installs the hook line into one hook file: an existing file that already
   * holds it, or is not a shell script, is left alone; another existing file
   * gets the marker and the hook line appended; a missing file is created.
   */
  function Install(file: Option<string>, fault: Option<IoStep>): (r: Outcome<HookResult>)
    ensures r.file != file ==> r.result in {Created, Appended, InstallFailed(SetExecutable)}
    ensures r.result in {Created, Appended} ==> r.file.Some? && Contains(r.file.value, HookLine)
    ensures r.result == Appended ==>
      (file.Some? && r.file == Some(file.value + Appendix) && !Contains(file.value, HookLine) && IsShellScript(file.value))
    ensures r.result == AlreadyPresent ==> file.Some? && Contains(file.value, HookLine)
    ensures r.result == NotShellScript ==> file.Some? && !IsShellScript(file.value) && !Contains(file.value, HookLine)
    ensures r.result.InstallFailed? ==> fault == Some(r.result.step)
    ensures r.result == Created <==> file.None? && fault !in {Some(WriteFile), Some(SetExecutable)}
    ensures r.result == Created ==> r.file == Some(CreatedHook)
  {
    match file
    case Some(content) =>
      if fault == Some(ReadFile) then Outcome(InstallFailed(ReadFile), file)
      else if Contains(content, HookLine) then Outcome(AlreadyPresent, file)
      else if !IsShellScript(content) then Outcome(NotShellScript, file)
      else if fault == Some(WriteFile) then Outcome(InstallFailed(WriteFile), file)
      else if fault == Some(SetExecutable) then Outcome(InstallFailed(SetExecutable), Some(content + Appendix))
      else
        AppendedHasHookLine(content);
        Outcome(Appended, Some(content + Appendix))
    case None =>
      if fault == Some(WriteFile) then Outcome(InstallFailed(WriteFile), None)
      else if fault == Some(SetExecutable) then Outcome(InstallFailed(SetExecutable), Some(CreatedHook))
      else
        CreatedIsAppended();
        AppendedHasHookLine(Shebang);
        Outcome(Created, Some(CreatedHook))
  }

  /** The shape of the appendix: a line feed, the marker, a line feed, the hook line, a line feed. */
  lemma AppendixShape()
    ensures Appendix == "\n" + Marker + "\n" + HookLine + "\n"
    ensures |Marker| < |HookLine| && '\n' !in HookLine
  {
  }

  /** `p` occurs where it was put, right after `pre`. */
  lemma OccursAfter(pre: string, p: string, post: string)
    ensures OccursAt(pre + p + post, p, |pre|)
    ensures Contains(pre + p + post, p)
  {
    var s := pre + p + post;
    assert s[|pre|..|pre| + |p|] == p;
    var i: nat := |pre|;
    assert i + |p| <= |s| && OccursAt(s, p, i);
  }

  lemma AppendedHasHookLine(c: string)
    ensures Contains(c + Appendix, HookLine)
  {
    AppendixShape();
    var pre := c + "\n" + Marker + "\n";
    assert c + Appendix == pre + HookLine + "\n";
    OccursAfter(pre, HookLine, "\n");
  }

  /**
   * After a text without `p`, a line feed, a line shorter than `p`, a line
   * feed, `p` and a line feed, `p` occurs once: every other place would
   * either lie inside the text or cross a line feed, which `p` does not hold.
   */
  lemma OnceBetweenBreaks(c: string, m: string, p: string)
    requires !Contains(c, p)
    requires |m| < |p| && '\n' !in p
    ensures OccursOnce(c + "\n" + m + "\n" + p + "\n", p)
  {
    var s := c + "\n" + m + "\n" + p + "\n";
    var at := |c| + |m| + 2;
    OccursAfter(c + "\n" + m + "\n", p, "\n");
    assert s[|c|] == '\n' && s[at - 1] == '\n' && s[at + |p|] == '\n';
    forall j: nat | OccursAt(s, p, j)
      ensures j == at
    {
      BreakOutside(s, p, j, |c|);
      BreakOutside(s, p, j, at - 1);
      BreakOutside(s, p, j, at + |p|);
      if j + |p| <= |c| {
        assert s[j..j + |p|] == c[j..j + |p|];
        assert OccursAt(c, p, j);
        assert false;
      }
    }
  }

  /** A line feed in the text lies outside every occurrence of a pattern without one. */
  lemma BreakOutside(s: string, p: string, j: nat, k: nat)
    requires OccursAt(s, p, j) && '\n' !in p
    requires k < |s| && s[k] == '\n'
    ensures k < j || j + |p| <= k
  {
  }

  /** Appending to a text without the hook line leaves exactly one occurrence of it. */
  lemma AppendedOnce(c: string)
    requires !Contains(c, HookLine)
    ensures OccursOnce(c + Appendix, HookLine)
  {
    AppendixShape();
    OnceBetweenBreaks(c, Marker, HookLine);
    assert c + Appendix == c + "\n" + Marker + "\n" + HookLine + "\n";
  }

  /** Regrouping a text followed by two `\n`-ended lines after a `\n`. */
  lemma Regroup(a: string, m: string, h: string)
    ensures a + "\n" + m + "\n" + h + "\n" == a + ("\n" + m + "\n" + h + "\n")
    ensures a + "\n" + m + "\n" + h + "\n" == a + "\n" + (m + "\n" + h + "\n")
  {
  }

  /** A created hook is the shebang line followed by the appendix. */
  lemma CreatedIsAppended()
    ensures CreatedHook == Shebang + Appendix
  {
    Regroup(Shebang, Marker, HookLine);
  }

  /** A created hook holds the hook line exactly once. */
  lemma CreatedOnce()
    ensures OccursOnce(CreatedHook, HookLine)
  {
    CreatedIsAppended();
    assert !Contains(Shebang, HookLine);
    AppendedOnce(Shebang);
  }

  /** A shebang naming a shell path directly makes a shell script. */
  lemma ShellPathScript(path: string, body: string)
    requires path in DirectShells && |path| > 0
    requires forall k :: 0 <= k < |path| ==> !IsWhitespace(path[k])
    ensures IsShellScript("#!" + path + "\n" + body)
  {
    ShebangWords([path], body);
    assert Join([path], " ") == path;
  }

  lemma ShPathFacts()
    ensures ShPath in DirectShells && |ShPath| > 0
    ensures forall k :: 0 <= k < |ShPath| ==> !IsWhitespace(ShPath[k])
  {
  }

  /** The created hook is a `/bin/sh` script. */
  lemma CreatedIsShellScript()
    ensures IsShellScript(CreatedHook)
  {
    ShPathFacts();
    ShellPathScript(ShPath, Marker + "\n" + HookLine + "\n");
    Regroup(Shebang, Marker, HookLine);
  }

  /** A hook ns wrote, or one it left alone, stays as it is when installing again. */
  lemma InstallIdempotent(file: Option<string>)
    ensures var first := Install(file, None);
      var second := Install(first.file, None);
      second.file == first.file
      && (first.result in {Created, Appended, AlreadyPresent} ==> second.result == AlreadyPresent)
      && (first.result == NotShellScript ==> second.result == NotShellScript)
  {
    var first := Install(file, None);
    if first.result == NotShellScript {
      InstallNotShell(file.value);
    } else {
      InstallPresent(first.file.value);
    }
  }

  /** A hook that holds the hook line is reported as such and left alone. */
  lemma InstallPresent(c: string)
    requires Contains(c, HookLine)
    ensures Install(Some(c), None) == Outcome(AlreadyPresent, Some(c))
  {
  }

  /** A hook without the hook line that is not a shell script is reported as such and left alone. */
  lemma InstallNotShell(c: string)
    requires !Contains(c, HookLine) && !IsShellScript(c)
    ensures Install(Some(c), None) == Outcome(NotShellScript, Some(c))
  {
  }

  /**
   * An install that writes the hook line leaves it in the file exactly once;
   * with `InstallIdempotent`, so does any number of further installs.
   */
  lemma InstallOnce(file: Option<string>, fault: Option<IoStep>)
    ensures var r := Install(file, fault);
      r.result in {Created, Appended} ==> r.file.Some? && OccursOnce(r.file.value, HookLine)
  {
    var r := Install(file, fault);
    if r.result == Created {
      assert r.file == Some(CreatedHook);
      CreatedOnce();
    } else if r.result == Appended {
      assert r.file == Some(file.value + Appendix);
      AppendedOnce(file.value);
    }
  }

  /** A text that is not a shell script is never written, whatever the file system does. */
  lemma NotShellScriptUntouched(content: string, fault: Option<IoStep>)
    requires !IsShellScript(content)
    ensures Install(Some(content), fault).file == Some(content)
  {
  }

  // ── Remove ────────────────────────────────────────────────────────────────

  /** A line ns added: it trims to the marker or to the hook line. */
  predicate IsOurs(line: string)
  {
    Trim(line) == Marker || Trim(line) == HookLine
  }

  predicate NotOurs(line: string)
  {
    !IsOurs(line)
  }

  /** A line that keeps a hook worth having: not blank and not a shebang. */
  predicate Meaningful(line: string)
  {
    |Trim(line)| > 0 && !StartsWith(line, "#!")
  }

  /**
   * The lines kept when the trailing blank lines are dropped and the last
   * line left is trimmed at its end: the lines of `trim_end` of their join.
   */
  function Tidy(ls: seq<string>): seq<string>
    decreases |ls|
  {
    if |ls| == 0 then []
    else if IsBlank(ls[|ls| - 1]) then Tidy(ls[..|ls| - 1])
    else ls[..|ls| - 1] + [TrimEnd(ls[|ls| - 1])]
  }

  /** Tidied lines: the lines up to a non-blank one, that one trimmed at its end; only blank lines follow it. */
  lemma {:induction false} TidyShape(ls: seq<string>)
    ensures |Tidy(ls)| <= |ls|
    ensures |Tidy(ls)| > 0 ==>
      Tidy(ls) == ls[..|Tidy(ls)| - 1] + [TrimEnd(ls[|Tidy(ls)| - 1])] && !IsBlank(ls[|Tidy(ls)| - 1])
    ensures forall k :: |Tidy(ls)| <= k < |ls| ==> IsBlank(ls[k])
    decreases |ls|
  {
    if |ls| > 0 && IsBlank(ls[|ls| - 1]) {
      var init := ls[..|ls| - 1];
      TidyShape(init);
      var n := |Tidy(init)|;
      assert Tidy(ls) == Tidy(init);
      if n > 0 {
        assert init[..n - 1] == ls[..n - 1] && init[n - 1] == ls[n - 1];
      }
      assert forall k :: n <= k < |init| ==> init[k] == ls[k];
    }
  }

  /**
   * Takes the marker and hook lines out of one hook file: the file is
   * deleted when nothing but blank and shebang lines would remain; otherwise
   * the other lines are written back with trailing whitespace trimmed and one
   * final `\n`.
   */
  function Remove(file: Option<string>, fault: Option<IoStep>): (r: Outcome<RemoveResult>)
    ensures r.result in {NotPresent, RemoveFailed(ReadFile), RemoveFailed(WriteFile), RemoveFailed(RemoveFile)} ==> r.file == file
    ensures r.result == NotPresent <==> file.None? || (fault != Some(ReadFile) && !Contains(file.value, HookLine) && !Contains(file.value, Marker))
    ensures r.result == Deleted ==> r.file.None?
    ensures r.result == Cleaned ==> r.file.Some? && |r.file.value| > 0 && r.file.value[|r.file.value| - 1] == '\n'
  {
    match file
    case None => Outcome(NotPresent, None)
    case Some(content) =>
      if fault == Some(ReadFile) then Outcome(RemoveFailed(ReadFile), file)
      else if !Contains(content, HookLine) && !Contains(content, Marker) then Outcome(NotPresent, file)
      else
        var kept := Filter(Lines(content), NotOurs);
        if Filter(kept, Meaningful) == [] then
          if fault == Some(RemoveFile) then Outcome(RemoveFailed(RemoveFile), file) else Outcome(Deleted, None)
        else
          var updated := TrimEnd(Join(kept, "\n")) + "\n";
          if fault == Some(WriteFile) then Outcome(RemoveFailed(WriteFile), file) else Outcome(Cleaned, Some(updated))
  }

  lemma MarkerChars()
    ensures forall k :: 0 <= k < |Marker| ==> Marker[k] != '\n' && Marker[k] != '\r'
    ensures |Marker| > 0 && !IsWhitespace(Marker[0]) && !IsWhitespace(Marker[|Marker| - 1])
  {
  }

  lemma HookLineChars()
    ensures forall k :: 0 <= k < |HookLine| ==> HookLine[k] != '\n' && HookLine[k] != '\r'
    ensures |HookLine| > 0 && !IsWhitespace(HookLine[0]) && !IsWhitespace(HookLine[|HookLine| - 1])
  {
  }

  lemma ShebangChars()
    ensures forall k :: 0 <= k < |Shebang| ==> Shebang[k] != '\n' && Shebang[k] != '\r'
    ensures |Shebang| > 0 && !IsWhitespace(Shebang[0]) && !IsWhitespace(Shebang[|Shebang| - 1])
    ensures StartsWith(Shebang, "#!")
  {
  }

  /** Neither line ns adds holds a line break. */
  lemma OurLinesUnbroken()
    ensures '\n' !in Marker && '\r' !in Marker && '\n' !in HookLine && '\r' !in HookLine
  {
    MarkerChars();
    HookLineChars();
  }

  /** The marker line is one of ns's lines. */
  lemma MarkerIsOurs()
    ensures IsOurs(Marker)
  {
    MarkerChars();
    TrimNoop(Marker);
  }

  /** The hook line is one of ns's lines. */
  lemma HookLineIsOurs()
    ensures IsOurs(HookLine)
  {
    HookLineChars();
    TrimNoop(HookLine);
  }

  /** An empty line is not one of ns's lines. */
  lemma EmptyNotOurs()
    ensures NotOurs("")
  {
    assert Trim("") == "";
    assert Marker[0] == '#';
  }

  /** A text and two lines, each ended by `\n`, read as three lines. */
  lemma ThreeLines(a: string, m: string, h: string)
    requires '\n' !in a && '\r' !in a && '\n' !in m && '\r' !in m && '\n' !in h && '\r' !in h
    ensures Lines(a + "\n" + m + "\n" + h + "\n") == [a, m, h]
  {
    var rest := m + "\n" + h + "\n";
    assert Lines(rest) == [m, h] by {
      assert rest == m + "\n" + (h + "\n");
      LinesCons(m, h + "\n");
      LinesOfLine(h);
    }
    assert a + "\n" + m + "\n" + h + "\n" == a + "\n" + rest by {
      Regroup(a, m, h);
    }
    LinesCons(a, rest);
  }

  /** A line feed and two lines, each ended by `\n`, read as an empty line and the two. */
  lemma EmptyThenTwoLines(m: string, h: string)
    requires '\n' !in m && '\r' !in m && '\n' !in h && '\r' !in h
    ensures Lines("\n" + m + "\n" + h + "\n") == ["", m, h]
  {
    ThreeLines("", m, h);
    assert "" + "\n" + m + "\n" + h + "\n" == "\n" + m + "\n" + h + "\n";
  }

  /** The appendix reads as an empty line, the marker line and the hook line. */
  lemma AppendixLines()
    ensures Lines(Appendix) == ["", Marker, HookLine]
  {
    OurLinesUnbroken();
    EmptyThenTwoLines(Marker, HookLine);
  }

  /** Filtering three elements of which only the first passes. */
  lemma FilterFirstOfThree<T(!new)>(x: T, y: T, z: T, keep: T -> bool)
    requires keep(x) && !keep(y) && !keep(z)
    ensures Filter([x, y, z], keep) == [x]
  {
    var ls := [x, y, z];
    assert ls[1..] == [y, z];
    FilterKeepsNone([y, z], keep);
  }

  /** Of the appendix's lines only the empty one is kept. */
  lemma AppendixKept()
    ensures Filter(["", Marker, HookLine], NotOurs) == [""]
  {
    MarkerIsOurs();
    HookLineIsOurs();
    KeptBeforeOurs(Marker, HookLine);
  }

  /** Of an empty line and two of ns's lines only the empty one is kept. */
  lemma KeptBeforeOurs(m: string, h: string)
    requires IsOurs(m) && IsOurs(h)
    ensures Filter(["", m, h], NotOurs) == [""]
  {
    EmptyNotOurs();
    FilterFirstOfThree("", m, h, NotOurs);
  }

  /** The lines kept from a text that ends in `\n` with the appendix after it. */
  lemma KeptOfAppended(c: string)
    requires |c| > 0 && c[|c| - 1] == '\n'
    requires forall k :: 0 <= k < |Lines(c)| ==> NotOurs(Lines(c)[k])
    ensures Filter(Lines(c + Appendix), NotOurs) == Lines(c) + [""]
  {
    LinesAppend(c, Appendix);
    AppendixLines();
    FilterAppend(Lines(c), ["", Marker, HookLine], NotOurs);
    FilterKeepsAll(Lines(c), NotOurs);
    AppendixKept();
  }

  /** Trimming a text that ends in a non-blank character and `\n` drops just the `\n`. */
  lemma TrimEndFinalBreak(c: string)
    requires |c| >= 2 && c[|c| - 1] == '\n' && !IsWhitespace(c[|c| - 2])
    ensures TrimEnd(c) + "\n" == c
  {
    assert TrimEnd(c) == TrimEnd(c[..|c| - 1]) == c[..|c| - 1];
  }

  /**
   * Removing after an install gives back the original hook: a shell script
   * without `\r`, ending in a non-blank line and `\n`, with a line worth
   * keeping and none of ns's lines. Install-remove cycles therefore add no
   * blank lines.
   */
  lemma RemoveUndoesInstall(c: string)
    requires IsShellScript(c) && !Contains(c, HookLine)
    requires '\r' !in c
    requires |c| >= 2 && c[|c| - 1] == '\n' && !IsWhitespace(c[|c| - 2])
    requires forall k :: 0 <= k < |Lines(c)| ==> NotOurs(Lines(c)[k])
    requires exists k :: 0 <= k < |Lines(c)| && Meaningful(Lines(c)[k])
    ensures Install(Some(c), None) == Outcome(Appended, Some(c + Appendix))
    ensures Remove(Some(c + Appendix), None) == Outcome(Cleaned, Some(c))
  {
    AppendedWhen(c);
    RemoveAppended(c);
  }

  /** An install appends to a shell script without the hook line. */
  lemma AppendedWhen(c: string)
    requires IsShellScript(c) && !Contains(c, HookLine)
    ensures Install(Some(c), None) == Outcome(Appended, Some(c + Appendix))
  {
  }

  /** Removing the appendix from a hook that ends in a non-blank line gives the hook back. */
  lemma RemoveAppended(c: string)
    requires '\r' !in c
    requires |c| >= 2 && c[|c| - 1] == '\n' && !IsWhitespace(c[|c| - 2])
    requires forall k :: 0 <= k < |Lines(c)| ==> NotOurs(Lines(c)[k])
    requires exists k :: 0 <= k < |Lines(c)| && Meaningful(Lines(c)[k])
    ensures Remove(Some(c + Appendix), None) == Outcome(Cleaned, Some(c))
  {
    var ls := Lines(c);
    var s := c + Appendix;
    var kept := ls + [""];
    assert Contains(s, HookLine) by {
      AppendedHasHookLine(c);
    }
    assert Filter(Lines(s), NotOurs) == kept by {
      KeptOfAppended(c);
    }
    assert Filter(kept, Meaningful) != [] by {
      KeepsMeaningful(ls);
    }
    assert TrimEnd(Join(kept, "\n")) + "\n" == c by {
      JoinSnoc(ls, "", "\n");
      JoinLinesInverse(c);
      assert Join(kept, "\n") == c;
      TrimEndFinalBreak(c);
    }
    CleanedWhen(s);
  }

  /** A meaningful line survives the filter that keeps meaningful lines. */
  lemma KeepsMeaningful(ls: seq<string>)
    requires exists k :: 0 <= k < |ls| && Meaningful(ls[k])
    ensures Filter(ls + [""], Meaningful) != []
  {
    var k :| 0 <= k < |ls| && Meaningful(ls[k]);
    assert (ls + [""])[k] == ls[k];
    assert ls[k] in Filter(ls + [""], Meaningful);
  }

  /** A remove that finds ns's lines and something worth keeping writes the rest back. */
  lemma CleanedWhen(c: string)
    requires Contains(c, HookLine) || Contains(c, Marker)
    requires Filter(Filter(Lines(c), NotOurs), Meaningful) != []
    ensures Remove(Some(c), None) == Outcome(Cleaned, Some(TrimEnd(Join(Filter(Lines(c), NotOurs), "\n")) + "\n"))
  {
  }

  /** A created hook reads as the shebang line, the marker line and the hook line. */
  lemma CreatedLines()
    ensures Lines(CreatedHook) == [Shebang, Marker, HookLine]
  {
    OurLinesUnbroken();
    ShebangChars();
    ThreeLines(Shebang, Marker, HookLine);
  }

  /** The shebang line is kept but is not worth keeping a hook for. */
  lemma ShebangKept()
    ensures NotOurs(Shebang) && !Meaningful(Shebang)
  {
    ShebangChars();
    TrimNoop(Shebang);
    assert Shebang[1] != Marker[1];
    assert Shebang[0] != HookLine[0];
  }

  /** A hook ns created is deleted again by a remove: it holds nothing else. */
  lemma RemoveCreated()
    ensures Remove(Some(CreatedHook), None) == Outcome(Deleted, None)
  {
    assert Contains(CreatedHook, HookLine) by {
      CreatedIsAppended();
      AppendedHasHookLine(Shebang);
    }
    assert Filter(Lines(CreatedHook), NotOurs) == [Shebang] by {
      CreatedLines();
      MarkerIsOurs();
      HookLineIsOurs();
      ShebangKept();
      FilterFirstOfThree(Shebang, Marker, HookLine, NotOurs);
    }
    assert Filter([Shebang], Meaningful) == [] by {
      ShebangKept();
    }
    DeletedWhen(CreatedHook);
  }

  lemma DeletedWhen(c: string)
    requires Contains(c, HookLine)
    requires Filter(Filter(Lines(c), NotOurs), Meaningful) == []
    ensures Remove(Some(c), None) == Outcome(Deleted, None)
  {
  }

  /**
   * A remove deletes the hook exactly when ns's lines are there and every
   * other line is blank or a shebang.
   */
  lemma DeletedIff(c: string)
    ensures Remove(Some(c), None).result == Deleted <==>
      (Contains(c, HookLine) || Contains(c, Marker)) &&
      forall k :: 0 <= k < |Lines(c)| ==> IsOurs(Lines(c)[k]) || !Meaningful(Lines(c)[k])
  {
    DeletedWhenEmpty(c);
    FilterTwiceEmpty(Lines(c), NotOurs, Meaningful);
  }

  /** A remove deletes the hook exactly when it finds ns's lines and nothing worth keeping. */
  lemma DeletedWhenEmpty(c: string)
    ensures Remove(Some(c), None).result == Deleted <==>
      (Contains(c, HookLine) || Contains(c, Marker)) && Filter(Filter(Lines(c), NotOurs), Meaningful) == []
  {
  }

  /** Joining lines and trimming the end is joining the tidied lines. */
  lemma {:induction false} TidyJoin(ls: seq<string>)
    requires exists k :: 0 <= k < |ls| && !IsBlank(ls[k])
    ensures |Tidy(ls)| > 0
    ensures TrimEnd(Join(ls, "\n")) == Join(Tidy(ls), "\n")
    decreases |ls|
  {
    var m := |ls|;
    var last := ls[m - 1];
    if m == 1 {
      assert Tidy(ls) == [TrimEnd(last)];
    } else {
      var init := ls[..m - 1];
      assert ls == init + [last];
      if IsBlank(last) {
        var k :| 0 <= k < |ls| && !IsBlank(ls[k]);
        assert init[k] == ls[k];
        TidyJoin(init);
        JoinDropBlank(init, last);
        assert Tidy(ls) == Tidy(init);
      } else {
        JoinTrimLast(init, last);
        assert Tidy(ls) == init + [TrimEnd(last)];
      }
    }
  }

  /** A blank last line vanishes when the join is trimmed at its end. */
  lemma JoinDropBlank(init: seq<string>, last: string)
    requires |init| >= 1 && IsBlank(last)
    ensures TrimEnd(Join(init + [last], "\n")) == TrimEnd(Join(init, "\n"))
  {
    var j := Join(init, "\n");
    JoinSnoc(init, last, "\n");
    TrimEndBlank(j + "\n", last);
    assert IsBlank("\n");
    TrimEndBlank(j, "\n");
  }

  /** Trimming the end of a join that ends in a non-blank line trims only that line. */
  lemma JoinTrimLast(init: seq<string>, last: string)
    requires |init| >= 1 && !IsBlank(last)
    ensures TrimEnd(Join(init + [last], "\n")) == Join(init + [TrimEnd(last)], "\n")
  {
    JoinSnoc(init, last, "\n");
    TrimEndNonBlank(Join(init, "\n") + "\n", last);
    JoinSnoc(init, TrimEnd(last), "\n");
  }

  /** A meaningful line is not blank. */
  lemma MeaningfulNotBlank(l: string)
    ensures Meaningful(l) ==> !IsBlank(l)
  {
    if IsBlank(l) {
      TrimBlank(l);
    }
  }

  /**
   * What a remove writes back: the kept lines without the trailing blank
   * ones, the last of them trimmed at its end, each ended by `\n`; no line
   * of it trims to the marker or the hook line.
   */
  lemma CleanedLines(c: string)
    requires Remove(Some(c), None).result == Cleaned
    ensures var kept := Filter(Lines(c), NotOurs);
      Remove(Some(c), None).file == Some(Join(Tidy(kept), "\n") + "\n")
      && Lines(Remove(Some(c), None).file.value) == StripCRAll(Tidy(kept))
    ensures forall k :: 0 <= k < |Lines(Remove(Some(c), None).file.value)| ==>
      NotOurs(Lines(Remove(Some(c), None).file.value)[k])
  {
    var kept := Filter(Lines(c), NotOurs);
    CleanedFile(c);
    KeptNonBlank(kept);
    KeptLines(Lines(c));
    TidyJoin(kept);
    TidiedLines(kept);
    TidiedNotOurs(kept);
  }

  /** What a remove that cleans writes, and why it did not delete. */
  lemma CleanedFile(c: string)
    requires Remove(Some(c), None).result == Cleaned
    ensures Filter(Filter(Lines(c), NotOurs), Meaningful) != []
    ensures Remove(Some(c), None).file == Some(TrimEnd(Join(Filter(Lines(c), NotOurs), "\n")) + "\n")
  {
    DeletedWhenEmpty(c);
    assert Contains(c, HookLine) || Contains(c, Marker);
    CleanedWhen(c);
  }

  /** A line worth keeping is a non-blank line. */
  lemma KeptNonBlank(kept: seq<string>)
    requires Filter(kept, Meaningful) != []
    ensures exists k :: 0 <= k < |kept| && !IsBlank(kept[k])
  {
    var y := Filter(kept, Meaningful)[0];
    assert y in kept && Meaningful(y);
    MeaningfulNotBlank(y);
    var j :| 0 <= j < |kept| && kept[j] == y;
  }

  /** The lines a remove keeps hold no line break and are not ns's. */
  lemma KeptLines(ls: seq<string>)
    requires forall k :: 0 <= k < |ls| ==> '\n' !in ls[k]
    ensures forall k :: 0 <= k < |Filter(ls, NotOurs)| ==> '\n' !in Filter(ls, NotOurs)[k] && NotOurs(Filter(ls, NotOurs)[k])
  {
    var kept := Filter(ls, NotOurs);
    forall k | 0 <= k < |kept|
      ensures '\n' !in kept[k] && NotOurs(kept[k])
    {
      assert kept[k] in ls;
    }
  }

  lemma TidiedLines(kept: seq<string>)
    requires exists k :: 0 <= k < |kept| && !IsBlank(kept[k])
    requires forall k :: 0 <= k < |kept| ==> '\n' !in kept[k]
    ensures Lines(Join(Tidy(kept), "\n") + "\n") == StripCRAll(Tidy(kept))
  {
    TidyJoin(kept);
    TidyUnbroken(kept);
    LinesOfJoin(Tidy(kept));
  }

  /** Tidying adds no line break. */
  lemma TidyUnbroken(kept: seq<string>)
    requires forall k :: 0 <= k < |kept| ==> '\n' !in kept[k]
    ensures forall k :: 0 <= k < |Tidy(kept)| ==> '\n' !in Tidy(kept)[k]
  {
    var t := Tidy(kept);
    var n := |t|;
    TidyShape(kept);
    if n > 0 {
      TrimEndKeepsOut(kept[n - 1], '\n');
      assert forall k :: 0 <= k < n - 1 ==> t[k] == kept[k];
      assert t[n - 1] == TrimEnd(kept[n - 1]);
    }
  }

  /** No tidied line, once stripped of `\r`, is one of ns's lines. */
  lemma TidiedNotOurs(kept: seq<string>)
    requires forall k :: 0 <= k < |kept| ==> NotOurs(kept[k])
    ensures forall k :: 0 <= k < |StripCRAll(Tidy(kept))| ==> NotOurs(StripCRAll(Tidy(kept))[k])
  {
    var t := Tidy(kept);
    var n := |t|;
    TidyShape(kept);
    forall k | 0 <= k < n
      ensures NotOurs(StripCRAll(t)[k])
    {
      StripCRAllAt(t, k);
      TrimStripCR(t[k]);
      if k == n - 1 {
        assert t[k] == TrimEnd(kept[k]);
        TrimTrimEnd(kept[k]);
      } else {
        assert t[k] == kept[k];
      }
    }
  }

  lemma {:induction false} StripCRAllAt(ls: seq<string>, k: nat)
    requires k < |ls|
    ensures StripCRAll(ls)[k] == StripCR(ls[k])
    decreases k
  {
    if k > 0 {
      StripCRAllAt(ls[1..], k - 1);
    }
  }
}
