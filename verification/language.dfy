/** Language detection from a file name's extension (src/indexer/language.rs). */
module Language {
  import opened Common
  import opened Text

  /** Index of the last occurrence of `c` in `s`, if any. */
  function LastIndexOf(s: string, c: char): (r: Option<nat>)
    ensures r.Some? ==> r.value < |s| && s[r.value] == c && c !in s[r.value + 1..]
    ensures r.None? ==> c !in s
  {
    if |s| == 0 then None
    else if s[|s| - 1] == c then Some(|s| - 1)
    else
      var r := LastIndexOf(s[..|s| - 1], c);
      assert s == s[..|s| - 1] + [s[|s| - 1]];
      r
  }

  /**
   * `Path::extension` of a file name: the text after its last `.`; none when the
   * name has no `.`, when that `.` is the name's first character (`.gitignore`)
   * or when the name is `..`.
   */
  function Extension(name: string): (r: Option<string>)
    ensures r.Some? ==> '.' !in r.value && exists i :: 0 < i < |name| && name[i] == '.' && r.value == name[i + 1..]
    ensures '.' !in name ==> r.None?
  {
    if name == ".." then None
    else match LastIndexOf(name, '.')
      case None => None
      case Some(i) => if i == 0 then None else Some(name[i + 1..])
  }

  /** The extensions the table recognises. */
  const KnownExtensions: set<string> :=
    {"rs", "py", "pyi", "go", "js", "jsx", "mjs", "cjs", "ts", "tsx", "mts", "cts"}

  /** The five language ids the detector can produce. */
  const DetectedLanguages: set<string> := {"rust", "python", "go", "javascript", "typescript"}

  /**
   * `detect_language`: the language id for an extension, or none for
   * unsupported ones; exactly the known extensions are recognised.
   */
  function DetectLanguage(ext: Option<string>): (r: Option<string>)
    ensures r.Some? <==> ext.Some? && ext.value in KnownExtensions
    ensures r.Some? ==> r.value in DetectedLanguages
  {
    match ext
    case None => None
    case Some(e) =>
      if e == "rs" then Some("rust")
      else if e == "py" || e == "pyi" then Some("python")
      else if e == "go" then Some("go")
      else if e == "js" || e == "jsx" || e == "mjs" || e == "cjs" then Some("javascript")
      else if e == "ts" || e == "tsx" || e == "mts" || e == "cts" then Some("typescript")
      else None
  }

  /** The detection table: each known extension mapped to its language. */
  lemma DetectLanguageTable(ext: Option<string>)
    ensures ext == Some("rs") ==> DetectLanguage(ext) == Some("rust")
    ensures ext == Some("py") || ext == Some("pyi") ==> DetectLanguage(ext) == Some("python")
    ensures ext == Some("go") ==> DetectLanguage(ext) == Some("go")
    ensures ext in {Some("js"), Some("jsx"), Some("mjs"), Some("cjs")} ==> DetectLanguage(ext) == Some("javascript")
    ensures ext in {Some("ts"), Some("tsx"), Some("mts"), Some("cts")} ==> DetectLanguage(ext) == Some("typescript")
  {
  }

  /** Matching is case-sensitive: an extension holding an upper-case letter is never recognised. */
  lemma UpperCaseExtensionUnknown(e: string)
    requires exists k :: 0 <= k < |e| && 'A' <= e[k] <= 'Z'
    ensures DetectLanguage(Some(e)) == None
  {
    var k :| 0 <= k < |e| && 'A' <= e[k] <= 'Z';
    if e in KnownExtensions {
      assert false;
    }
  }

  /** Names without an extension, as in `no_extension`: `Makefile`, `LICENSE`, `.gitignore`. */
  lemma NoExtensionNames()
    ensures Extension("Makefile") == None && DetectLanguage(Extension("Makefile")) == None
    ensures Extension("LICENSE") == None && DetectLanguage(Extension("LICENSE")) == None
    ensures Extension(".gitignore") == None && DetectLanguage(Extension(".gitignore")) == None
  {
    assert '.' !in "Makefile";
    assert '.' !in "LICENSE";
    assert LastIndexOf(".gitignore", '.') == Some(0) by {
      var s := ".gitignore";
      assert s[0] == '.';
      assert forall k :: 1 <= k < |s| ==> s[k] != '.';
      LastDotAtStart(s);
    }
  }

  lemma {:induction false} LastDotAtStart(s: string)
    requires |s| > 0 && s[0] == '.'
    requires forall k :: 1 <= k < |s| ==> s[k] != '.'
    ensures LastIndexOf(s, '.') == Some(0)
    decreases |s|
  {
    if |s| > 1 {
      LastDotAtStart(s[..|s| - 1]);
    }
  }

  /** A file name `stem.ext` (stem non-empty and not `.`) has extension `ext`. */
  lemma {:induction false} ExtensionOfStemDotExt(stem: string, ext: string)
    requires |stem| > 0 && '.' !in ext && stem != "."
    ensures Extension(stem + "." + ext) == Some(ext)
  {
    var name := stem + "." + ext;
    assert name[|stem| + 1..] == ext;
    assert name[|stem|] == '.';
    LastIndexAfter(name, |stem|);
    assert name[0] == stem[0];
    if |stem| == 1 {
      assert stem == [stem[0]];
      assert name[0] != '.';
    }
    assert name != "..";
  }

  lemma {:induction false} LastIndexAfter(s: string, i: nat)
    requires i < |s| && s[i] == '.' && '.' !in s[i + 1..]
    ensures LastIndexOf(s, '.') == Some(i)
    decreases |s|
  {
    if i < |s| - 1 {
      assert s[|s| - 1] in s[i + 1..];
      var t := s[..|s| - 1];
      assert t[i + 1..] == s[i + 1..|s| - 1];
      LastIndexAfter(t, i);
    }
  }
}
