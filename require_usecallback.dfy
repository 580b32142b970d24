/**
 * The require-usecallback rule: inside a custom hook or a component, every initializer
 * of a directly declared variable that is a new function (an arrow function or a
 * function expression) is reported, with a fix that wraps it in
 * `useCallback(..., [])` and imports `useCallback`.
 */
module RequireUseCallback {
  import opened Ast
  import opened Edits
  import Utils
  import opened Scope

  /** The visitor's test on a present initializer. */
  predicate Eligible(init: Expr) {
    !Utils.IsUseCallbackWrapped(Some(init)) && Utils.IsNewFunction(Some(init))
  }

  /** The fix of one report: replace the initializer by its wrapper, then whatever
      import edit `useCallback` needs. */
  function Fix(init: Expr, unit: SourceUnit): seq<Edit>
    requires ValidRange(init.range, unit.text)
  {
    var w := Utils.BuildUseCallbackWrapper(init, unit);
    [Replace(init.range, w.text)] + Utils.EnsureReactImport(unit, w.hookName)
  }

  /** One report: the automatic fix and the single suggestion carry the same edits. */
  function CallbackReport(init: Expr, unit: SourceUnit): Report
    requires ValidRange(init.range, unit.text)
  {
    Report(init, "useCallback", Fix(init, unit), [Suggestion("useCallback", Fix(init, unit))])
  }

  /** The report builder the visitor applies to each selected initializer. */
  function ReportOf(unit: SourceUnit): Expr --> Report {
    (x: Expr) requires ValidRange(x.range, unit.text) => CallbackReport(x, unit)
  }

  /** The reports of `inits`, one each, in the same order. */
  function Reports(inits: seq<Expr>, unit: SourceUnit): seq<Report>
    requires InText(inits, unit)
  {
    MapInits(ReportOf(unit), inits)
  }

  /** The visitor for one function node: the reports it makes, in document order. */
  method Visit(fn: FunctionNode, unit: SourceUnit) returns (reports: seq<Report>)
    requires InText(ScannedInits(fn), unit)
    ensures InText(Filter(Eligible, ScannedInits(fn)), unit)
    ensures |reports| == |Filter(Eligible, ScannedInits(fn))|
    ensures forall k :: 0 <= k < |reports| ==>
              reports[k] == CallbackReport(Filter(Eligible, ScannedInits(fn))[k], unit)
  {
    MapInitsIndex(ReportOf(unit), Filter(Eligible, ScannedInits(fn)));
    reports := [];
    var name := FunctionName(fn);
    if !Utils.IsReactHookName(name) && !Utils.IsReactComponentName(name) {
      return;
    }
    if !fn.body.BlockStatement? {
      return;
    }
    reports := VisitStatements(fn.body.statements, unit);
  }

  /** The `body.body.forEach` callback over the statements of the block body. */
  method VisitStatements(statements: seq<Statement>, unit: SourceUnit) returns (reports: seq<Report>)
    requires InText(StmtInits(statements), unit)
    ensures InText(Filter(Eligible, StmtInits(statements)), unit)
    ensures reports == Reports(Filter(Eligible, StmtInits(statements)), unit)
  {
    reports := [];
    assert statements[..0] == [];
    var i := 0;
    while i < |statements|
      invariant 0 <= i <= |statements|
      invariant InText(StmtInits(statements[..i]), unit)
      invariant reports == Reports(Filter(Eligible, StmtInits(statements[..i])), unit)
    {
      if statements[i].VariableDeclaration? {
        DeclarationsInText(statements, i, unit);
        var more := VisitDeclarations(statements[i].declarations, unit);
        ReportsAfterDeclaration(statements, i, unit);
        reports := reports + more;
      } else {
        OtherStatementStep(statements, i);
      }
      i := i + 1;
    }
    assert statements[..|statements|] == statements;
  }

  /** One VariableDeclaration statement of the loop: its reports follow those of the
      statements before it. */
  lemma ReportsAfterDeclaration(stmts: seq<Statement>, i: nat, unit: SourceUnit)
    requires i < |stmts| && stmts[i].VariableDeclaration?
    requires InText(StmtInits(stmts[..i]), unit)
    requires InText(DeclInits(stmts[i].declarations), unit)
    ensures InText(StmtInits(stmts[..i + 1]), unit)
    ensures InText(Filter(Eligible, DeclInits(stmts[i].declarations)), unit)
    ensures Reports(Filter(Eligible, StmtInits(stmts[..i + 1])), unit)
         == Reports(Filter(Eligible, StmtInits(stmts[..i])), unit)
            + Reports(Filter(Eligible, DeclInits(stmts[i].declarations)), unit)
  {
    var done, decls := StmtInits(stmts[..i]), DeclInits(stmts[i].declarations);
    StmtInitsStep(stmts, i);
    assert InText(done + decls, unit);
    FilterConcat(Eligible, done, decls);
    FilterInText(Eligible, done + decls, unit);
    MapInitsConcat(ReportOf(unit), Filter(Eligible, done), Filter(Eligible, decls));
  }

  /** The `declarations.forEach` callback over one VariableDeclaration: a report for
      each present initializer that passes the test. */
  method VisitDeclarations(declarations: seq<Declarator>, unit: SourceUnit) returns (reports: seq<Report>)
    requires InText(DeclInits(declarations), unit)
    ensures InText(Filter(Eligible, DeclInits(declarations)), unit)
    ensures reports == Reports(Filter(Eligible, DeclInits(declarations)), unit)
  {
    reports := [];
    assert declarations[..0] == [];
    var j := 0;
    while j < |declarations|
      invariant 0 <= j <= |declarations|
      invariant InText(DeclInits(declarations[..j]), unit)
      invariant reports == Reports(Filter(Eligible, DeclInits(declarations[..j])), unit)
    {
      var init := declarations[j].init;
      ReportsAfterDeclarator(declarations, j, unit);
      if init.Some? && Eligible(init.value) {
        reports := reports + [CallbackReport(init.value, unit)];
      } else {
        assert reports + [] == reports;
      }
      j := j + 1;
    }
    assert declarations[..|declarations|] == declarations;
  }

  /** One declarator of the inner loop: a report for its initializer exactly when it
      is present and eligible. */
  lemma ReportsAfterDeclarator(decls: seq<Declarator>, j: nat, unit: SourceUnit)
    requires j < |decls|
    requires InText(DeclInits(decls), unit)
    requires InText(DeclInits(decls[..j]), unit)
    ensures decls[j].init.Some? ==> ValidRange(decls[j].init.value.range, unit.text)
    ensures InText(DeclInits(decls[..j + 1]), unit)
    ensures Reports(Filter(Eligible, DeclInits(decls[..j + 1])), unit)
         == Reports(Filter(Eligible, DeclInits(decls[..j])), unit)
            + (if decls[j].init.Some? && Eligible(decls[j].init.value)
               then [CallbackReport(decls[j].init.value, unit)] else [])
  {
    var seen := DeclInits(decls[..j]);
    var before := Reports(Filter(Eligible, seen), unit);
    DeclInitsStep(decls, j);
    if decls[j].init.Some? {
      var x := decls[j].init.value;
      DeclInitsMembership(decls, x);
      FilterStep(Eligible, seen, x);
      FilterInText(Eligible, seen + [x], unit);
      if Eligible(x) {
        MapInitsStep(ReportOf(unit), Filter(Eligible, seen), x);
      } else {
        assert Filter(Eligible, seen) + [] == Filter(Eligible, seen);
        assert before + [] == before;
      }
    } else {
      assert seen + [] == seen;
      assert before + [] == before;
    }
  }

  // ---------------------------------------------------------------------------
  // what the rule reports
  // ---------------------------------------------------------------------------

  /** Exactly arrow functions and function expressions are eligible: the
      `useCallback(...)` test can never exclude a new function, and objects, arrays,
      calls and literals are never reported. */
  lemma EligibleKinds(x: Expr)
    ensures Eligible(x) <==> x.kind == ArrowFn || x.kind == FnExpr
  {
    Utils.NewFunctionKinds(Some(x));
  }

  /** An initializer is reported exactly when the function passes the gate, has a block
      body, the initializer belongs to a declarator of a VariableDeclaration standing
      directly in that body, and it is a new function. */
  lemma ReportedExactly(fn: FunctionNode, x: Expr)
    ensures x in Filter(Eligible, ScannedInits(fn)) <==>
      && IsScope(fn) && fn.body.BlockStatement?
      && (exists i, j :: 0 <= i < |fn.body.statements| && fn.body.statements[i].VariableDeclaration?
                         && 0 <= j < |fn.body.statements[i].declarations|
                         && fn.body.statements[i].declarations[j].init == Some(x))
      && (x.kind == ArrowFn || x.kind == FnExpr)
  {
    FilterMembership(Eligible, ScannedInits(fn), x);
    EligibleKinds(x);
    if IsScope(fn) && fn.body.BlockStatement? {
      StmtInitsMembership(fn.body.statements, x);
    }
  }

  /** Reports come in document order: splitting the body splits the reports. */
  lemma ReportsInDocumentOrder(fn: FunctionNode, a: seq<Statement>, b: seq<Statement>)
    requires IsScope(fn) && fn.body == BlockStatement(a + b)
    ensures Filter(Eligible, ScannedInits(fn))
         == Filter(Eligible, StmtInits(a)) + Filter(Eligible, StmtInits(b))
  {
    StmtInitsConcat(a, b);
    FilterConcat(Eligible, StmtInits(a), StmtInits(b));
  }

  /** A report pairs the initializer with its fix; the fix replaces the initializer by
      the wrapper and appends ensureReactImport's edit for `useCallback`; the
      suggestion carries the very same edits. */
  lemma ReportShape(init: Expr, unit: SourceUnit)
    requires ValidRange(init.range, unit.text)
    ensures var r := CallbackReport(init, unit);
      && r.node == init && r.messageId == "useCallback"
      && 1 <= |r.fix| <= 2
      && r.fix[0] == Replace(init.range, Utils.BuildUseCallbackWrapper(init, unit).text)
      && r.fix[1..] == Utils.EnsureReactImport(unit, "useCallback")
      && r.suggest == [Suggestion("useCallback", r.fix)]
  {
  }

  /** In a file without a react import, applying the fix puts
      `import { useCallback } from 'react';` on a line of its own at the top (after
      the leading newline, indented like the line that follows it, when the text
      starts with a newline) and wraps the function text in `useCallback(..., [])`. */
  lemma NoImportFixOutput(unit: SourceUnit, init: Expr)
    requires forall k :: 0 <= k < |unit.body| ==> !Utils.IsReactImport(unit.body[k])
    requires init.range.start < init.range.end <= |unit.text|
    requires StartsWith(unit.text, "\n") ==> 1 <= init.range.start
    ensures var src, s, e := unit.text, init.range.start, init.range.end;
      ApplyFix(src, Fix(init, unit)) ==
        if StartsWith(src, "\n") then
          Some("\n" + Utils.LeadingSpaces(src[1..]) + Utils.ImportStatement("useCallback") + "\n"
               + src[1..s] + "useCallback(" + src[s..e] + ", [])" + src[e..])
        else
          Some(Utils.ImportStatement("useCallback") + "\n"
               + src[..s] + "useCallback(" + src[s..e] + ", [])" + src[e..])
  {
    if StartsWith(unit.text, "\n") {
      NoImportAfterNewline(unit, init);
    } else {
      NoImportAtStart(unit, init);
    }
  }

  lemma NoImportAfterNewline(unit: SourceUnit, init: Expr)
    requires forall k :: 0 <= k < |unit.body| ==> !Utils.IsReactImport(unit.body[k])
    requires 1 <= init.range.start < init.range.end <= |unit.text|
    requires StartsWith(unit.text, "\n")
    ensures var src, s, e := unit.text, init.range.start, init.range.end;
      ApplyFix(src, Fix(init, unit)) ==
        Some("\n" + Utils.LeadingSpaces(src[1..]) + Utils.ImportStatement("useCallback") + "\n"
             + src[1..s] + "useCallback(" + src[s..e] + ", [])" + src[e..])
  {
    var src, s, e := unit.text, init.range.start, init.range.end;
    var w := Utils.BuildUseCallbackWrapper(init, unit).text;
    assert Fix(init, unit) == [Replace(init.range, w)] + Utils.EnsureReactImport(unit, "useCallback");
    Utils.NoImportFixAppliesAfterNewline(unit, init.range, w, "useCallback");
    var head := Utils.LeadingSpaces(src[1..]) + Utils.ImportStatement("useCallback") + "\n";
    var x := "\n" + head + src[1..s];
    assert x == "\n" + Utils.LeadingSpaces(src[1..]) + Utils.ImportStatement("useCallback") + "\n" + src[1..s];
    assert w == "useCallback(" + src[s..e] + ", [])";
    assert x + w == x + "useCallback(" + src[s..e] + ", [])";
  }

  lemma NoImportAtStart(unit: SourceUnit, init: Expr)
    requires forall k :: 0 <= k < |unit.body| ==> !Utils.IsReactImport(unit.body[k])
    requires init.range.start < init.range.end <= |unit.text|
    requires !StartsWith(unit.text, "\n")
    ensures var src, s, e := unit.text, init.range.start, init.range.end;
      ApplyFix(src, Fix(init, unit)) ==
        Some(Utils.ImportStatement("useCallback") + "\n"
             + src[..s] + "useCallback(" + src[s..e] + ", [])" + src[e..])
  {
    var src, s, e := unit.text, init.range.start, init.range.end;
    var w := Utils.BuildUseCallbackWrapper(init, unit).text;
    assert Fix(init, unit) == [Replace(init.range, w)] + Utils.EnsureReactImport(unit, "useCallback");
    Utils.NoImportFixAppliesAtStart(unit, init.range, w, "useCallback");
    var x := Utils.ImportStatement("useCallback") + "\n" + src[..s];
    assert w == "useCallback(" + src[s..e] + ", [])";
    assert x + w == x + "useCallback(" + src[s..e] + ", [])";
  }
}
