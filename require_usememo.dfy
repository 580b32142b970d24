/**
 * The require-usememo rule: inside a custom hook or a component, every initializer of
 * a directly declared variable that computes a value (a call, an object or array
 * literal, a JSX element or fragment) and is not already `useMemo(...)` is reported,
 * with a fix that wraps it in `useMemo(() => ..., [])` and imports `useMemo`.
 */
module RequireUseMemo {
  import opened Ast
  import opened Edits
  import Utils
  import opened Scope

  /** The hook names excluded from memoization: every identifier starting with `use`,
      plus an explicit list that the prefix test already covers. */
  predicate IsHookCallName(name: string) {
    || StartsWith(name, "use")
    || name == "useState"
    || name == "useEffect"
    || name == "useCallback"
    || name == "useMemo"
    || name == "useRef"
    || name == "useContext"
    || name == "useReducer"
    || name == "useLayoutEffect"
  }

  /** shouldBeMemoized: calls (except hooks and console calls), object and array
      literals, JSX elements and fragments. */
  predicate ShouldBeMemoized(node: Option<Expr>) {
    if node.None? then false
    else match node.value.kind
      case Call(callee) =>
        if callee.Ident? && IsHookCallName(callee.name) then false
        else if callee.Ident? && (callee.name == "console" || StartsWith(callee.name, "console.")) then false
        else if callee.Member? && callee.objectName == Some("console") then false
        else true
      case Object => true
      case Array => true
      case JSXElement => true
      case JSXFragment => true
      case _ => false
  }

  /** isUseMemoWrapped: a call of the plain identifier `useMemo`. */
  predicate IsUseMemoWrapped(node: Option<Expr>) {
    node.Some? && node.value.kind.Call? && node.value.kind.callee.Ident?
    && node.value.kind.callee.name == "useMemo"
  }

  const MemoPrefix := "useMemo(() => "

  /** buildUseMemoWrapper: the original text becomes the body of a zero-argument arrow
      passed to `useMemo` with an empty dependency list; an object literal is
      parenthesized so that it is not read as a block. */
  function BuildUseMemoWrapper(node: Expr, unit: SourceUnit): (w: Utils.Wrapper)
    requires ValidRange(node.range, unit.text)
    ensures w.hookName == "useMemo"
    ensures var original := GetText(unit, node.range);
      Utils.Unwrap(w.text, MemoPrefix, Utils.EmptyDepsSuffix)
        == Some(if node.kind.Object? then "(" + original + ")" else original)
    ensures Utils.Occurs(GetText(unit, node.range), w.text)
  {
    var original := GetText(unit, node.range);
    if node.kind.Object? then
      var text := "useMemo(() => (" + original + "), [])";
      assert text == MemoPrefix + ("(" + original + ")") + Utils.EmptyDepsSuffix;
      assert text == (MemoPrefix + "(") + original + ("), [])");
      Utils.UnwrapFramed(MemoPrefix, "(" + original + ")", Utils.EmptyDepsSuffix);
      Utils.OccursInFramed(MemoPrefix + "(", original, "), [])");
      Utils.Wrapper(text, "useMemo")
    else
      var text := "useMemo(() => " + original + ", [])";
      Utils.UnwrapFramed(MemoPrefix, original, Utils.EmptyDepsSuffix);
      Utils.OccursInFramed(MemoPrefix, original, Utils.EmptyDepsSuffix);
      Utils.Wrapper(text, "useMemo")
  }

  /** The visitor's test on a present initializer. */
  predicate Eligible(init: Expr) {
    !IsUseMemoWrapped(Some(init)) && ShouldBeMemoized(Some(init))
  }

  /** The fix of one report: replace the initializer by its wrapper, then whatever
      import edit `useMemo` needs. */
  function Fix(init: Expr, unit: SourceUnit): seq<Edit>
    requires ValidRange(init.range, unit.text)
  {
    var w := BuildUseMemoWrapper(init, unit);
    [Replace(init.range, w.text)] + Utils.EnsureReactImport(unit, w.hookName)
  }

  /** One report: the automatic fix and the single suggestion carry the same edits. */
  function MemoReport(init: Expr, unit: SourceUnit): Report
    requires ValidRange(init.range, unit.text)
  {
    Report(init, "useMemo", Fix(init, unit), [Suggestion("useMemo", Fix(init, unit))])
  }

  /** The report builder the visitor applies to each selected initializer. */
  function ReportOf(unit: SourceUnit): Expr --> Report {
    (x: Expr) requires ValidRange(x.range, unit.text) => MemoReport(x, unit)
  }

  /** The reports of `inits`, one each, in the same order. */
  function Reports(inits: seq<Expr>, unit: SourceUnit): seq<Report>
    requires InText(inits, unit)
  {
    MapInits(ReportOf(unit), inits)
  }

  /** The visitor for one function node: the reports it makes, in document order. */
  method Visit(fn: FunctionNode, unit: SourceUnit) returns (reports: seq<Report>)
    requires InText(ScannedInits(fn), unit)
    ensures InText(Filter(Eligible, ScannedInits(fn)), unit)
    ensures |reports| == |Filter(Eligible, ScannedInits(fn))|
    ensures forall k :: 0 <= k < |reports| ==>
              reports[k] == MemoReport(Filter(Eligible, ScannedInits(fn))[k], unit)
  {
    MapInitsIndex(ReportOf(unit), Filter(Eligible, ScannedInits(fn)));
    reports := [];
    var name := FunctionName(fn);
    if !Utils.IsReactHookName(name) && !Utils.IsReactComponentName(name) {
      return;
    }
    if !fn.body.BlockStatement? {
      return;
    }
    reports := VisitStatements(fn.body.statements, unit);
  }

  /** The `body.body.forEach` callback over the statements of the block body. */
  method VisitStatements(statements: seq<Statement>, unit: SourceUnit) returns (reports: seq<Report>)
    requires InText(StmtInits(statements), unit)
    ensures InText(Filter(Eligible, StmtInits(statements)), unit)
    ensures reports == Reports(Filter(Eligible, StmtInits(statements)), unit)
  {
    reports := [];
    assert statements[..0] == [];
    var i := 0;
    while i < |statements|
      invariant 0 <= i <= |statements|
      invariant InText(StmtInits(statements[..i]), unit)
      invariant reports == Reports(Filter(Eligible, StmtInits(statements[..i])), unit)
    {
      if statements[i].VariableDeclaration? {
        DeclarationsInText(statements, i, unit);
        var more := VisitDeclarations(statements[i].declarations, unit);
        ReportsAfterDeclaration(statements, i, unit);
        reports := reports + more;
      } else {
        OtherStatementStep(statements, i);
      }
      i := i + 1;
    }
    assert statements[..|statements|] == statements;
  }

  /** One VariableDeclaration statement of the loop: its reports follow those of the
      statements before it. */
  lemma ReportsAfterDeclaration(stmts: seq<Statement>, i: nat, unit: SourceUnit)
    requires i < |stmts| && stmts[i].VariableDeclaration?
    requires InText(StmtInits(stmts[..i]), unit)
    requires InText(DeclInits(stmts[i].declarations), unit)
    ensures InText(StmtInits(stmts[..i + 1]), unit)
    ensures InText(Filter(Eligible, DeclInits(stmts[i].declarations)), unit)
    ensures Reports(Filter(Eligible, StmtInits(stmts[..i + 1])), unit)
         == Reports(Filter(Eligible, StmtInits(stmts[..i])), unit)
            + Reports(Filter(Eligible, DeclInits(stmts[i].declarations)), unit)
  {
    var done, decls := StmtInits(stmts[..i]), DeclInits(stmts[i].declarations);
    StmtInitsStep(stmts, i);
    assert InText(done + decls, unit);
    FilterConcat(Eligible, done, decls);
    FilterInText(Eligible, done + decls, unit);
    MapInitsConcat(ReportOf(unit), Filter(Eligible, done), Filter(Eligible, decls));
  }

  /** The `declarations.forEach` callback over one VariableDeclaration: a report for
      each present initializer that passes the test. */
  method VisitDeclarations(declarations: seq<Declarator>, unit: SourceUnit) returns (reports: seq<Report>)
    requires InText(DeclInits(declarations), unit)
    ensures InText(Filter(Eligible, DeclInits(declarations)), unit)
    ensures reports == Reports(Filter(Eligible, DeclInits(declarations)), unit)
  {
    reports := [];
    assert declarations[..0] == [];
    var j := 0;
    while j < |declarations|
      invariant 0 <= j <= |declarations|
      invariant InText(DeclInits(declarations[..j]), unit)
      invariant reports == Reports(Filter(Eligible, DeclInits(declarations[..j])), unit)
    {
      var init := declarations[j].init;
      ReportsAfterDeclarator(declarations, j, unit);
      if init.Some? && Eligible(init.value) {
        reports := reports + [MemoReport(init.value, unit)];
      } else {
        assert reports + [] == reports;
      }
      j := j + 1;
    }
    assert declarations[..|declarations|] == declarations;
  }

  /** One declarator of the inner loop: a report for its initializer exactly when it
      is present and eligible. */
  lemma ReportsAfterDeclarator(decls: seq<Declarator>, j: nat, unit: SourceUnit)
    requires j < |decls|
    requires InText(DeclInits(decls), unit)
    requires InText(DeclInits(decls[..j]), unit)
    ensures decls[j].init.Some? ==> ValidRange(decls[j].init.value.range, unit.text)
    ensures InText(DeclInits(decls[..j + 1]), unit)
    ensures Reports(Filter(Eligible, DeclInits(decls[..j + 1])), unit)
         == Reports(Filter(Eligible, DeclInits(decls[..j])), unit)
            + (if decls[j].init.Some? && Eligible(decls[j].init.value)
               then [MemoReport(decls[j].init.value, unit)] else [])
  {
    var seen := DeclInits(decls[..j]);
    var before := Reports(Filter(Eligible, seen), unit);
    DeclInitsStep(decls, j);
    if decls[j].init.Some? {
      var x := decls[j].init.value;
      DeclInitsMembership(decls, x);
      FilterStep(Eligible, seen, x);
      FilterInText(Eligible, seen + [x], unit);
      if Eligible(x) {
        MapInitsStep(ReportOf(unit), Filter(Eligible, seen), x);
      } else {
        assert Filter(Eligible, seen) + [] == Filter(Eligible, seen);
        assert before + [] == before;
      }
    } else {
      assert seen + [] == seen;
      assert before + [] == before;
    }
  }

  // ---------------------------------------------------------------------------
  // what the rule reports
  // ---------------------------------------------------------------------------

  /** Every name of the explicit hook list already starts with `use`. */
  lemma HookListCoveredByPrefix(name: string)
    ensures IsHookCallName(name) <==> StartsWith(name, "use")
  {
    if name in ["useState", "useEffect", "useCallback", "useMemo", "useRef", "useContext",
                "useReducer", "useLayoutEffect"] {
      assert name[..3] == "use";
    }
  }

  /** Eligibility by kind: a call unless its callee is an identifier starting with `use`
      or naming `console` (or starting with `console.`), or a member access on the
      identifier `console`; object and array literals, JSX elements and fragments;
      never a function literal, a literal or anything else.  The `useMemo(...)` test
      is subsumed by the `use` prefix.  A member call such as `React.useMemo(...)` is
      not taken as wrapped and is reported, like any member call not on `console`.
      A missing initializer is never memoized. */
  lemma EligibleKinds(x: Expr)
    ensures !ShouldBeMemoized(None)
    ensures Eligible(x) <==> match x.kind
      case Call(Ident(n)) => !StartsWith(n, "use") && n != "console" && !StartsWith(n, "console.")
      case Call(Member(obj)) => obj != Some("console")
      case Call(OtherCallee) => true
      case Object => true
      case Array => true
      case JSXElement => true
      case JSXFragment => true
      case _ => false
  {
    match x.kind
    case Call(Ident(n)) =>
      HookListCoveredByPrefix(n);
      if n == "useMemo" {
        assert StartsWith(n, "use");
      }
    case _ =>
  }

  /** isUseMemoWrapped holds exactly for a call of the plain identifier `useMemo`:
      `React.useMemo(...)`, any other callee and every non-call are not wrapped. */
  lemma UseMemoWrappedOnlyByIdentifier(node: Option<Expr>)
    ensures IsUseMemoWrapped(node) <==> node.Some? && node.value.kind == Call(Ident("useMemo"))
  {
  }

  /** A `useMemo(...)` initializer is never reported. */
  lemma UseMemoCallNeverEligible(x: Expr)
    requires IsUseMemoWrapped(Some(x))
    ensures !Eligible(x)
  {
  }

  /** An initializer is reported exactly when the function passes the gate, has a block
      body, the initializer belongs to a declarator of a VariableDeclaration standing
      directly in that body, and it is eligible. */
  lemma ReportedExactly(fn: FunctionNode, x: Expr)
    ensures x in Filter(Eligible, ScannedInits(fn)) <==>
      && IsScope(fn) && fn.body.BlockStatement?
      && (exists i, j :: 0 <= i < |fn.body.statements| && fn.body.statements[i].VariableDeclaration?
                         && 0 <= j < |fn.body.statements[i].declarations|
                         && fn.body.statements[i].declarations[j].init == Some(x))
      && Eligible(x)
  {
    FilterMembership(Eligible, ScannedInits(fn), x);
    if IsScope(fn) && fn.body.BlockStatement? {
      StmtInitsMembership(fn.body.statements, x);
    }
  }

  /** Reports come in document order: splitting the body splits the reports. */
  lemma ReportsInDocumentOrder(fn: FunctionNode, a: seq<Statement>, b: seq<Statement>)
    requires IsScope(fn) && fn.body == BlockStatement(a + b)
    ensures Filter(Eligible, ScannedInits(fn))
         == Filter(Eligible, StmtInits(a)) + Filter(Eligible, StmtInits(b))
  {
    StmtInitsConcat(a, b);
    FilterConcat(Eligible, StmtInits(a), StmtInits(b));
  }

  /** A report pairs the initializer with its fix; the fix replaces the initializer by
      the wrapper and appends ensureReactImport's edit for `useMemo`; the suggestion
      carries the very same edits. */
  lemma ReportShape(init: Expr, unit: SourceUnit)
    requires ValidRange(init.range, unit.text)
    ensures var r := MemoReport(init, unit);
      && r.node == init && r.messageId == "useMemo"
      && 1 <= |r.fix| <= 2
      && r.fix[0] == Replace(init.range, BuildUseMemoWrapper(init, unit).text)
      && r.fix[1..] == Utils.EnsureReactImport(unit, "useMemo")
      && r.suggest == [Suggestion("useMemo", r.fix)]
  {
  }

  /** The text the fix adds to an existing named import list, `, useMemo`.  Kept as
      a lemma of its own: proved inside the larger lemma below, this equation of
      string literals is costly for the solver. */
  lemma AddedSpecifierText()
    ensures ", " + "useMemo" == ", useMemo"
  {
  }

  /** With an existing react import (the first one) that does not yet name `useMemo`,
      whose last named specifier is specifier `k`, and which ends before the
      initializer, applying the fix appends `, useMemo` after that specifier and wraps
      the initializer, e.g. turning `import { useState } from 'react'` and
      `const config = { theme: 'dark', count }` into
      `import { useState, useMemo } from 'react'` and
      `const config = useMemo(() => ({ theme: 'dark', count }), [])`. */
  lemma NamedImportFixOutput(unit: SourceUnit, init: Expr, k: nat)
    requires init.range.start < init.range.end <= |unit.text|
    requires Utils.ImportLayout(unit, init.range)
    requires Utils.FindReactImport(unit.body).Some?
    requires var decl := Utils.FindReactImport(unit.body).value;
      && !Utils.HasNamed(decl.specifiers, "useMemo")
      && k < |decl.specifiers| && decl.specifiers[k].ImportSpecifier?
      && (forall j :: k < j < |decl.specifiers| ==> !decl.specifiers[j].ImportSpecifier?)
      && decl.range.end <= init.range.start
    ensures var p := Utils.FindReactImport(unit.body).value.specifiers[k].range.end;
      && p <= init.range.start
      && ApplyFix(unit.text, Fix(init, unit)) ==
           Some(unit.text[..p] + ", useMemo" + unit.text[p..init.range.start]
                + BuildUseMemoWrapper(init, unit).text + unit.text[init.range.end..])
  {
    var src, r := unit.text, init.range;
    var wr := BuildUseMemoWrapper(init, unit);
    assert Fix(init, unit) == [Replace(r, wr.text)] + Utils.EnsureReactImport(unit, wr.hookName);
    AddedSpecifierText();
    Utils.NamedImportFixApplies(unit, r, wr.text, wr.hookName, k);
  }
}
