/**
 * Symbol extraction (src/indexer/symbols.rs): per-language pre-order walkers
 * over a syntax tree, the language dispatch and order-preserving
 * deduplication. The tree-sitter parse itself is not modelled: the walkers
 * run over an abstract syntax tree given as input.
 */
module Symbols {
  import opened Common
  import opened Text
  import opened Language

  // ── Syntax trees ──────────────────────────────────────────────────────────

  /**
   * A syntax-tree node: its kind, whether the grammar names it, the field it
   * fills in its parent (if any), its source text (`None` when the span is not
   * valid UTF-8, where `utf8_text` fails) and all its children in order.
   */
  datatype Node = Node(kind: string, named: bool, field: Option<string>, text: Option<string>, children: seq<Node>)

  /** The kinds of a node's parent and grandparent, which tree-sitter reaches through `parent()`. */
  datatype Ctx = Ctx(parent: Option<string>, grand: Option<string>)

  /** The context of the root node: it has no parent. */
  const RootCtx := Ctx(None, None)

  /** The context of every child of `n`, when `n` itself sits in `ctx`. */
  function ChildCtx(n: Node, ctx: Ctx): Ctx
  {
    Ctx(Some(n.kind), ctx.parent)
  }

  /** First node of `cs` filling field `f`. */
  function FirstInField(cs: seq<Node>, f: string): (r: Option<Node>)
    ensures r.Some? ==> r.value in cs && r.value.field == Some(f)
    ensures r.None? ==> forall i :: 0 <= i < |cs| ==> cs[i].field != Some(f)
  {
    if |cs| == 0 then None
    else if cs[0].field == Some(f) then Some(cs[0])
    else FirstInField(cs[1..], f)
  }

  /** `Node::child_by_field_name`. */
  function ChildByField(n: Node, f: string): Option<Node>
  {
    FirstInField(n.children, f)
  }

  /** First node of `cs` of kind `k`. */
  function FirstOfKind(cs: seq<Node>, k: string): (r: Option<Node>)
    ensures r.Some? ==> r.value in cs && IsFirstOfKind(cs, k, r.value)
    ensures r.None? ==> forall i :: 0 <= i < |cs| ==> cs[i].kind != k
  {
    if |cs| == 0 then None
    else if cs[0].kind == k then Some(cs[0])
    else
      var r := FirstOfKind(cs[1..], k);
      if r.Some? then FirstPastHead(cs, k, r.value); r else r
  }

  /** A first node of kind `k` after a head of another kind is first in the whole sequence. */
  lemma FirstPastHead(cs: seq<Node>, k: string, x: Node)
    requires |cs| > 0 && cs[0].kind != k && IsFirstOfKind(cs[1..], k, x)
    ensures IsFirstOfKind(cs, k, x)
  {
    var i :| 0 <= i < |cs[1..]| && cs[1..][i] == x && FirstAt(cs[1..], k, i);
    assert cs[i + 1] == x && FirstAt(cs, k, i + 1);
  }

  /** `cs[i]` is of kind `k` and no earlier node is. */
  predicate FirstAt(cs: seq<Node>, k: string, i: nat)
    requires i < |cs|
  {
    cs[i].kind == k && forall j :: 0 <= j < i ==> cs[j].kind != k
  }

  /** `x` is the first node of kind `k` in `cs`. */
  predicate IsFirstOfKind(cs: seq<Node>, k: string, x: Node)
  {
    exists i :: 0 <= i < |cs| && cs[i] == x && FirstAt(cs, k, i)
  }

  /** The named children of `n`, in order (`named_child(0)`, `named_child(1)`, …). */
  function NamedChildren(n: Node): seq<Node>
  {
    Filter(n.children, (c: Node) => c.named)
  }

  /** An optional name as a list of zero or one names pushed onto the output. */
  function Push(name: Option<string>): seq<string>
  {
    match name
    case None => []
    case Some(s) => [s]
  }

  // ── Helpers ───────────────────────────────────────────────────────────────

  /**
   * `field_name_text`: the trimmed text of the child in field `f`; none when
   * there is no such child, its text is unreadable, or it trims to nothing.
   */
  function FieldNameText(n: Node, f: string): (r: Option<string>)
    ensures r.Some? ==> ChildByField(n, f).Some? && ChildByField(n, f).value.text.Some?
                        && r.value == Trim(ChildByField(n, f).value.text.value)
    ensures r.Some? ==> |r.value| > 0 && !IsWhitespace(r.value[0]) && !IsWhitespace(r.value[|r.value| - 1])
    ensures r.None? <==> ChildByField(n, f).None? || ChildByField(n, f).value.text.None?
                         || IsBlank(ChildByField(n, f).value.text.value)
  {
    match ChildByField(n, f)
    case None => None
    case Some(child) =>
      match child.text
      case None => None
      case Some(t) =>
        TrimEmptyIffBlank(t);
        var s := Trim(t);
        if |s| == 0 then None else Some(s)
  }

  /**
   * `identifier_from_type`: the base name of an `impl` target type — the
   * text of a `type_identifier`, the first child of a `generic_type`, the
   * `name` field of a `scoped_type_identifier`, and otherwise the trimmed
   * text before the first `<`.
   */
  function IdentifierFromType(n: Node): (r: Option<string>)
    ensures n.kind !in {"type_identifier", "generic_type", "scoped_type_identifier"} && r.Some? ==>
              '<' !in r.value && |r.value| > 0
  {
    if n.kind == "type_identifier" then n.text
    else if n.kind == "generic_type" then
      if |n.children| == 0 then None else n.children[0].text
    else if n.kind == "scoped_type_identifier" then
      match ChildByField(n, "name")
      case None => None
      case Some(c) => c.text
    else
      match n.text
      case None => None
      case Some(t) =>
        var base := Trim(Split(t, '<')[0]);
        SplitFirstPieceNoSep(t, '<');
        if |base| == 0 then None else Some(base)
  }

  /** The first piece of a split holds no separator. */
  lemma SplitFirstPieceNoSep(t: string, c: char)
    ensures c !in Split(t, c)[0]
    ensures forall x :: x in Trim(Split(t, c)[0]) ==> x in Split(t, c)[0]
  {
    var p := Split(t, c)[0];
    var u := TrimStart(p);
    assert forall x :: x in u ==> x in p;
    assert forall x :: x in TrimEnd(u) ==> x in u;
  }

  /**
   * In the fallback case the result is the trimmed text in front of the first
   * `<`, or the whole trimmed text when it has no `<`; a blank base or a node
   * without text gives no name.
   */
  lemma IdentifierFromTypeFallback(n: Node, name: string, rest: string)
    requires n.kind !in {"type_identifier", "generic_type", "scoped_type_identifier"}
    ensures n.text.None? ==> IdentifierFromType(n).None?
    ensures n.text == Some(name + "<" + rest) && '<' !in name ==>
              IdentifierFromType(n) == (if IsBlank(name) then None else Some(Trim(name)))
    ensures n.text == Some(name) && '<' !in name ==>
              IdentifierFromType(n) == (if IsBlank(name) then None else Some(Trim(name)))
  {
    TrimEmptyIffBlank(name);
    if n.text == Some(name + "<" + rest) && '<' !in name {
      SplitWhereAt(name, '<', rest, x => x == '<');
      assert Split(name + "<" + rest, '<')[0] == name;
    } else if n.text == Some(name) && '<' !in name {
      SplitWhereNone(name, x => x == '<');
      assert Split(name, '<')[0] == name;
    }
  }

  /**
   * `is_top_level_variable`: a `variable_declarator` counts when its parent is a
   * `variable_declaration` or `lexical_declaration` whose own parent is the
   * `program` or an `export_statement`.
   */
  predicate IsTopLevelVariable(ctx: Ctx)
  {
    && ctx.parent.Some? && ctx.parent.value in {"variable_declaration", "lexical_declaration"}
    && ctx.grand.Some? && ctx.grand.value in {"program", "export_statement"}
  }

  /** The four contexts in which a variable declarator is top level. */
  const TopLevelContexts: set<Ctx> := {
    Ctx(Some("variable_declaration"), Some("program")),
    Ctx(Some("lexical_declaration"), Some("program")),
    Ctx(Some("variable_declaration"), Some("export_statement")),
    Ctx(Some("lexical_declaration"), Some("export_statement"))
  }

  /** A declarator is top level exactly in the four listed contexts; the root has none. */
  lemma TopLevelVariableContexts(ctx: Ctx)
    ensures IsTopLevelVariable(ctx) <==> ctx in TopLevelContexts
    ensures !IsTopLevelVariable(RootCtx)
  {
    if IsTopLevelVariable(ctx) {
      assert ctx == Ctx(Some(ctx.parent.value), Some(ctx.grand.value));
    }
  }

  // ── What each language's walker records at one node ───────────────────────

  /** The per-language walkers; `JsTs` carries the `ts_extras` switch. */
  datatype Walker = Rust | JsTs(tsExtras: bool) | Python | Go | Elixir

  const RustNamedKinds: set<string> :=
    {"function_item", "function_signature_item", "struct_item", "enum_item", "trait_item", "const_item", "type_item"}
  const JsNamedKinds: set<string> := {"function_declaration", "class_declaration", "method_definition"}
  const TsExtraKinds: set<string> := {"interface_declaration", "type_alias_declaration", "enum_declaration"}
  const PythonNamedKinds: set<string> := {"function_definition", "class_definition"}
  const GoNamedKinds: set<string> := {"function_declaration", "method_declaration", "type_spec", "const_spec"}
  const ElixirModuleKeywords: set<string> := {"defmodule", "defprotocol", "defimpl"}
  const ElixirFnKeywords: set<string> :=
    {"def", "defp", "defmacro", "defmacrop", "defguard", "defguardp", "defdelegate"}

  /** The names a walker pushes for node `n` itself (before visiting its children): at most one. */
  function Visit(w: Walker, n: Node, ctx: Ctx): (r: seq<string>)
    ensures |r| <= 1
    ensures w == Python ==> (r != [] <==> n.kind in PythonNamedKinds && FieldNameText(n, "name").Some?)
    ensures w == Go ==> (r != [] <==> n.kind in GoNamedKinds && FieldNameText(n, "name").Some?)
    ensures (w == Python || w == Go) && r != [] ==>
              FieldNameText(n, "name").Some? && r[0] == FieldNameText(n, "name").value
  {
    match w
    case Rust => VisitRust(n)
    case JsTs(tsExtras) => VisitJsTs(tsExtras, n, ctx)
    case Python => if n.kind in PythonNamedKinds then Push(FieldNameText(n, "name")) else []
    case Go => if n.kind in GoNamedKinds then Push(FieldNameText(n, "name")) else []
    case Elixir => VisitElixir(n)
  }

  /** `walk_rust` at one node: named items by their `name` field, `impl` blocks by their target type. */
  function VisitRust(n: Node): (r: seq<string>)
    ensures |r| <= 1
    ensures r != [] ==> n.kind in RustNamedKinds || n.kind == "impl_item"
    ensures n.kind in RustNamedKinds ==> (r != [] <==> FieldNameText(n, "name").Some?)
    ensures n.kind in RustNamedKinds && r != [] ==>
              FieldNameText(n, "name").Some? && r[0] == FieldNameText(n, "name").value
              && |r[0]| > 0 && !IsWhitespace(r[0][0])
    ensures n.kind == "impl_item" ==>
              (r != [] <==> ChildByField(n, "type").Some? && IdentifierFromType(ChildByField(n, "type").value).Some?)
    ensures n.kind == "impl_item" && r != [] ==>
              ChildByField(n, "type").Some? && IdentifierFromType(ChildByField(n, "type").value).Some?
              && r[0] == IdentifierFromType(ChildByField(n, "type").value).value
  {
    if n.kind in RustNamedKinds then Push(FieldNameText(n, "name"))
    else if n.kind == "impl_item" then
      match ChildByField(n, "type")
      case None => []
      case Some(t) => Push(IdentifierFromType(t))
    else []
  }

  /** `walk_js_ts` at one node; the TypeScript-only declarations count only with `tsExtras`. */
  function VisitJsTs(tsExtras: bool, n: Node, ctx: Ctx): (r: seq<string>)
    ensures |r| <= 1
    ensures r != [] <==> (FieldNameText(n, "name").Some? &&
                          (n.kind in JsNamedKinds || (tsExtras && n.kind in TsExtraKinds)
                           || (n.kind == "variable_declarator" && IsTopLevelVariable(ctx))))
    ensures r != [] ==> FieldNameText(n, "name").Some? && r[0] == FieldNameText(n, "name").value && |r[0]| > 0
  {
    if n.kind in JsNamedKinds then Push(FieldNameText(n, "name"))
    else if n.kind in TsExtraKinds && tsExtras then Push(FieldNameText(n, "name"))
    else if n.kind == "variable_declarator" && IsTopLevelVariable(ctx) then Push(FieldNameText(n, "name"))
    else []
  }

  /** The text of a node's `target` child when that child is an identifier (and readable). */
  function TargetName(c: Node): Option<string>
  {
    match ChildByField(c, "target")
    case None => None
    case Some(id) => if id.kind == "identifier" then id.text else None
  }

  /** The first named child of a call's first `arguments` child. */
  function FirstNamedArg(call: Node): Option<Node>
  {
    match FirstOfKind(call.children, "arguments")
    case None => None
    case Some(args) => if |NamedChildren(args)| == 0 then None else Some(NamedChildren(args)[0])
  }

  /** An identifier child's text, unless unreadable. */
  function IdentifierText(id: Node): (r: seq<string>)
    ensures |r| <= 1
  {
    if id.kind == "identifier" then Push(id.text) else []
  }

  /** No keyword both defines a module and a function. */
  lemma KeywordsDisjoint()
    ensures ElixirModuleKeywords * ElixirFnKeywords == {}
  {
  }

  /** `walk_elixir` at one node: a `call` whose `target` is a definition keyword. */
  function VisitElixir(n: Node): (r: seq<string>)
    ensures |r| <= 1
    ensures r != [] ==> n.kind == "call" && TargetName(n).Some?
                        && TargetName(n).value in ElixirModuleKeywords + ElixirFnKeywords
    ensures n.kind == "call" && TargetName(n).Some? && TargetName(n).value in ElixirModuleKeywords ==>
              r == ElixirFirstAlias(n)
    ensures n.kind == "call" && TargetName(n).Some? && TargetName(n).value in ElixirFnKeywords ==>
              r == ElixirFnName(n)
  {
    KeywordsDisjoint();
    if n.kind != "call" then []
    else match TargetName(n)
      case None => []
      case Some(keyword) =>
        if keyword in ElixirModuleKeywords then ElixirFirstAlias(n)
        else if keyword in ElixirFnKeywords then ElixirFnName(n)
        else []
  }

  /** `elixir_extract_first_alias`: the first `alias` among the named children of the first `arguments` child. */
  function ElixirFirstAlias(call: Node): (r: seq<string>)
    ensures |r| <= 1
    ensures var args := FirstOfKind(call.children, "arguments");
            var alias := if args.Some? then FirstOfKind(NamedChildren(args.value), "alias") else None;
            (r != [] <==> alias.Some? && alias.value.text.Some?)
            && (r != [] ==> alias.Some? && alias.value.text == Some(r[0]))
  {
    match FirstOfKind(call.children, "arguments")
    case None => []
    case Some(args) =>
      match FirstOfKind(NamedChildren(args), "alias")
      case None => []
      case Some(alias) => Push(alias.text)
  }

  /**
   * `elixir_extract_fn_name`: the defined name from the first named argument,
   * which is a call (`def f(x)`), a bare identifier (`def f`) or a `when`
   * guard whose left side is a call (`defguard g(x) when …`).
   */
  function ElixirFnName(call: Node): (r: seq<string>)
    ensures |r| <= 1
    ensures FirstNamedArg(call).None? ==> r == []
    ensures FirstNamedArg(call).Some? ==>
      var first := FirstNamedArg(call).value;
      && (first.kind == "identifier" ==> r == Push(first.text))
      && (first.kind == "call" ==> r == Push(TargetName(first)))
      && (first.kind == "binary_operator" ==>
            r == match ChildByField(first, "left")
                 case Some(left) => if left.kind == "call" then Push(TargetName(left)) else []
                 case None => [])
      && (first.kind !in {"identifier", "call", "binary_operator"} ==> r == [])
  {
    match FirstOfKind(call.children, "arguments")
    case None => []
    case Some(args) =>
      var named := NamedChildren(args);
      if |named| == 0 then []
      else
        var first := named[0];
        if first.kind == "call" then
          match ChildByField(first, "target")
          case None => []
          case Some(id) => IdentifierText(id)
        else if first.kind == "identifier" then Push(first.text)
        else if first.kind == "binary_operator" then
          match ChildByField(first, "left")
          case None => []
          case Some(left) =>
            if left.kind != "call" then []
            else match ChildByField(left, "target")
              case None => []
              case Some(id) => IdentifierText(id)
        else []
  }

  // ── Walking ───────────────────────────────────────────────────────────────

  /** `walk_*`: record the node's own names, then walk each child from left to right. */
  function Walk(w: Walker, n: Node, ctx: Ctx): (r: seq<string>)
    ensures Visit(w, n, ctx) <= r
    ensures n.children == [] ==> r == Visit(w, n, ctx)
    decreases n, 1, 0
  {
    Visit(w, n, ctx) + WalkChildren(w, n, ctx, 0)
  }

  /** Walks the children of `n` from index `i` on. */
  function WalkChildren(w: Walker, n: Node, ctx: Ctx, i: nat): seq<string>
    decreases n, 0, |n.children| - i
  {
    if i >= |n.children| then []
    else Walk(w, n.children[i], ChildCtx(n, ctx)) + WalkChildren(w, n, ctx, i + 1)
  }

  /** The pre-order enumeration of a tree: each node (with its context) before its descendants, children left to right. */
  function PreOrder(n: Node, ctx: Ctx): (r: seq<(Node, Ctx)>)
    ensures |r| >= 1 && r[0] == (n, ctx)
    decreases n, 1, 0
  {
    [(n, ctx)] + PreOrderChildren(n, ctx, 0)
  }

  function PreOrderChildren(n: Node, ctx: Ctx, i: nat): seq<(Node, Ctx)>
    decreases n, 0, |n.children| - i
  {
    if i >= |n.children| then []
    else PreOrder(n.children[i], ChildCtx(n, ctx)) + PreOrderChildren(n, ctx, i + 1)
  }

  /** The names recorded by visiting each entry of `ps` in turn. */
  function VisitAll(w: Walker, ps: seq<(Node, Ctx)>): seq<string>
  {
    FlatMap(ps, (p: (Node, Ctx)) => Visit(w, p.0, p.1))
  }

  /**
   * Every walker is a pre-order traversal: its output is the concatenation,
   * over the nodes in pre-order, of what it records at each node.
   */
  lemma {:induction false} WalkIsPreOrder(w: Walker, n: Node, ctx: Ctx)
    ensures Walk(w, n, ctx) == VisitAll(w, PreOrder(n, ctx))
    decreases n, 1, 0
  {
    WalkChildrenIsPreOrder(w, n, ctx, 0);
    FlatMapAppend([(n, ctx)], PreOrderChildren(n, ctx, 0), (p: (Node, Ctx)) => Visit(w, p.0, p.1));
  }

  lemma {:induction false} WalkChildrenIsPreOrder(w: Walker, n: Node, ctx: Ctx, i: nat)
    ensures WalkChildren(w, n, ctx, i) == VisitAll(w, PreOrderChildren(n, ctx, i))
    decreases n, 0, |n.children| - i
  {
    if i < |n.children| {
      WalkIsPreOrder(w, n.children[i], ChildCtx(n, ctx));
      WalkChildrenIsPreOrder(w, n, ctx, i + 1);
      FlatMapAppend(PreOrder(n.children[i], ChildCtx(n, ctx)), PreOrderChildren(n, ctx, i + 1), (p: (Node, Ctx)) => Visit(w, p.0, p.1));
    }
  }

  /** A walk records at most one name per node of the tree. */
  lemma WalkAtMostOnePerNode(w: Walker, n: Node, ctx: Ctx)
    ensures |Walk(w, n, ctx)| <= |PreOrder(n, ctx)|
  {
    WalkIsPreOrder(w, n, ctx);
    VisitAllAtMostOne(w, PreOrder(n, ctx));
  }

  lemma {:induction false} VisitAllAtMostOne(w: Walker, ps: seq<(Node, Ctx)>)
    ensures |VisitAll(w, ps)| <= |ps|
  {
    if |ps| > 0 {
      VisitAllAtMostOne(w, ps[1..]);
    }
  }

  /**
   * The JavaScript walker (`ts_extras` off) only ever records names of
   * function, class and method declarations and of top-level variable
   * declarators; interface, type-alias and enum names never appear.
   */
  lemma JavaScriptNameSources(n: Node, ctx: Ctx, x: string)
    requires x in Walk(JsTs(false), n, ctx)
    ensures exists i :: 0 <= i < |PreOrder(n, ctx)| && JsRecords(PreOrder(n, ctx)[i].0, PreOrder(n, ctx)[i].1, x)
  {
    WalkIsPreOrder(JsTs(false), n, ctx);
    FlatMapSource(PreOrder(n, ctx), (p: (Node, Ctx)) => Visit(JsTs(false), p.0, p.1), x);
    var ps := PreOrder(n, ctx);
    var i :| 0 <= i < |ps| && x in Visit(JsTs(false), ps[i].0, ps[i].1);
    JsVisitSource(ps[i].0, ps[i].1, x);
  }

  /** `x` was recorded at node `m` by a declaration the JavaScript walker handles. */
  predicate JsRecords(m: Node, c: Ctx, x: string)
  {
    && x in Visit(JsTs(false), m, c)
    && m.kind !in TsExtraKinds
    && (m.kind in JsNamedKinds || (m.kind == "variable_declarator" && IsTopLevelVariable(c)))
  }

  lemma JsVisitSource(m: Node, c: Ctx, x: string)
    ensures x in Visit(JsTs(false), m, c) ==> JsRecords(m, c, x)
  {
    JsVisitKinds(m, c);
    assert JsNamedKinds * TsExtraKinds == {};
  }

  /** Without `ts_extras` only plain declarations and top-level variables record anything. */
  lemma JsVisitKinds(m: Node, c: Ctx)
    ensures VisitJsTs(false, m, c) != [] ==>
              m.kind in JsNamedKinds || (m.kind == "variable_declarator" && IsTopLevelVariable(c))
  {
  }

  /** A `variable_declarator` that is not directly inside a top-level declaration records nothing. */
  lemma NestedVariableNotRecorded(w: Walker, n: Node, ctx: Ctx)
    requires w.JsTs? && n.kind == "variable_declarator" && !IsTopLevelVariable(ctx)
    ensures Visit(w, n, ctx) == []
  {
  }

  // ── Deduplication ─────────────────────────────────────────────────────────

  /** The elements of `s`, as a set. */
  function Elements(s: seq<string>): set<string>
  {
    set x | x in s
  }

  /**
   * The reference behaviour: each element of `s` kept exactly at its first
   * occurrence (defined from the right end, independently of the seen-set loop).
   */
  function FirstOccurrences(s: seq<string>): seq<string>
  {
    if |s| == 0 then []
    else
      var init := s[..|s| - 1];
      FirstOccurrences(init) + (if s[|s| - 1] in init then [] else [s[|s| - 1]])
  }

  /** The `seen` hash-set filter of `extract_symbols`, started with `seen` already filled. */
  function KeepUnseen(s: seq<string>, seen: set<string>): seq<string>
  {
    if |s| == 0 then []
    else if s[0] in seen then KeepUnseen(s[1..], seen)
    else [s[0]] + KeepUnseen(s[1..], seen + {s[0]})
  }

  /** Deduplication keeping the first occurrence of each symbol. */
  function Dedup(s: seq<string>): (r: seq<string>)
    ensures r == FirstOccurrences(s)
    ensures NoDuplicates(r)
    ensures IsSubseq(r, s)
    ensures forall x :: x in r <==> x in s
  {
    KeepUnseenIsFirstOccurrences([], s);
    assert [] + s == s;
    assert Elements([]) == {};
    FirstOccurrencesProperties(s);
    KeepUnseen(s, {})
  }

  lemma {:induction false} KeepUnseenIsFirstOccurrences(done: seq<string>, s: seq<string>)
    ensures FirstOccurrences(done + s) == FirstOccurrences(done) + KeepUnseen(s, Elements(done))
    decreases |s|
  {
    if |s| == 0 {
      assert done + s == done;
    } else {
      var done' := done + [s[0]];
      assert done + s == done' + s[1..];
      KeepUnseenIsFirstOccurrences(done', s[1..]);
      assert done'[..|done'| - 1] == done;
      assert Elements(done') == Elements(done) + {s[0]};
      if s[0] in done {
        assert Elements(done') == Elements(done);
      }
    }
  }

  lemma {:induction false} FirstOccurrencesProperties(s: seq<string>)
    ensures NoDuplicates(FirstOccurrences(s))
    ensures IsSubseq(FirstOccurrences(s), s)
    ensures forall x :: x in FirstOccurrences(s) <==> x in s
    decreases |s|
  {
    if |s| > 0 {
      var init := s[..|s| - 1];
      var last := s[|s| - 1];
      FirstOccurrencesProperties(init);
      assert s == init + [last];
      SubseqAppendRight(FirstOccurrences(init), init, if last in init then [] else [last], [last]);
      assert forall x :: x in s <==> x in init || x == last;
    }
  }

  /** Subsequences are preserved when suffixes that are subsequences are appended. */
  lemma {:induction false} SubseqAppendRight(a: seq<string>, b: seq<string>, c: seq<string>, d: seq<string>)
    requires IsSubseq(a, b) && IsSubseq(c, d)
    ensures IsSubseq(a + c, b + d)
    decreases |b|
  {
    if |a| == 0 {
      SubseqAppendLeft(c, b, d);
      assert a + c == c;
    } else if a[0] == b[0] {
      SubseqAppendRight(a[1..], b[1..], c, d);
      assert (a + c)[1..] == a[1..] + c;
      assert (b + d)[1..] == b[1..] + d;
    } else {
      SubseqAppendRight(a, b[1..], c, d);
      assert (b + d)[1..] == b[1..] + d;
    }
  }

  lemma {:induction false} SubseqAppendLeft(c: seq<string>, b: seq<string>, d: seq<string>)
    requires IsSubseq(c, d)
    ensures IsSubseq(c, b + d)
    decreases |b|
  {
    if |b| > 0 {
      SubseqAppendLeft(c, b[1..], d);
      assert (b + d)[1..] == b[1..] + d;
      if |c| > 0 && c[0] == b[0] {
        SubseqWeaken(c, b[1..] + d);
      }
    } else {
      assert b + d == d;
    }
  }

  /** Dropping the first element of a subsequence keeps it a subsequence. */
  lemma {:induction false} SubseqWeaken(c: seq<string>, s: seq<string>)
    requires |c| > 0 && IsSubseq(c, s)
    ensures IsSubseq(c[1..], s)
    decreases |s|, 1
  {
    if c[0] != s[0] {
      SubseqWeaken(c, s[1..]);
    }
    SubseqTail(c[1..], s);
  }

  /** A subsequence of the tail is a subsequence of the whole. */
  lemma {:induction false} SubseqTail(c: seq<string>, s: seq<string>)
    requires |s| > 0 && IsSubseq(c, s[1..])
    ensures IsSubseq(c, s)
    decreases |s|, 0
  {
    if |c| > 0 && c[0] == s[0] {
      SubseqWeaken(c, s[1..]);
    }
  }

  // ── Dispatch ──────────────────────────────────────────────────────────────

  /** The walker `extract_symbols` dispatches to for a language id. */
  function WalkerFor(lang: string): Option<Walker>
  {
    if lang == "rust" then Some(Rust)
    else if lang == "typescript" then Some(JsTs(true))
    else if lang == "javascript" then Some(JsTs(false))
    else if lang == "python" then Some(Python)
    else if lang == "go" then Some(Go)
    else if lang == "elixir" then Some(Elixir)
    else None
  }

  /**
   * `extract_symbols`: for a supported language, the walker's names over the
   * parsed tree (`None` when parsing failed), deduplicated at first occurrence.
   */
  function ExtractSymbols(lang: string, tree: Option<Node>): (r: seq<string>)
    ensures WalkerFor(lang).None? || tree.None? ==> r == []
    ensures NoDuplicates(r)
    ensures WalkerFor(lang).Some? && tree.Some? ==>
              var raw := Walk(WalkerFor(lang).value, tree.value, RootCtx);
              r == FirstOccurrences(raw) && IsSubseq(r, raw) && forall x :: x in r <==> x in raw
  {
    match WalkerFor(lang)
    case None => []
    case Some(w) =>
      match tree
      case None => []
      case Some(root) => Dedup(Walk(w, root, RootCtx))
  }

  /**
   * Every language the detector produces has a walker, and none of them is
   * the Elixir walker: `detect_language` never yields `"elixir"`, so that
   * walker is unreachable from indexing.
   */
  lemma DetectedLanguagesSupported(ext: Option<string>)
    ensures DetectLanguage(ext).Some? ==>
              WalkerFor(DetectLanguage(ext).value).Some? && WalkerFor(DetectLanguage(ext).value) != Some(Elixir)
    ensures WalkerFor("elixir") == Some(Elixir) && "elixir" !in DetectedLanguages
  {
    DetectLanguageTable(ext);
  }
}
