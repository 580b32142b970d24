/**
 * What both rules' visitors do before they look at a single initializer: resolve the
 * visited function's name, gate on the hook/component conventions, and collect the
 * initializers of the variable declarations standing directly in the block body.
 * The visitors themselves are methods with loops (in RequireUseMemo and
 * RequireUseCallback); the functions here are what those loops are proved against.
 */
module Scope {
  import opened Ast
  import Utils

  /** The visited function's name: the id of a FunctionDeclaration (when non-empty),
      else the identifier a parent VariableDeclarator binds, else absent.  The own id
      of a function or arrow expression is not used. */
  function FunctionName(fn: FunctionNode): Option<string> {
    if fn.kind == FunctionDeclaration && fn.id.Some? && fn.id.value != "" then fn.id
    else match fn.parent
      case DeclaratorParent(IdentifierPattern(n)) => Some(n)
      case _ => None
  }

  /** The gate: the name follows the hook or the component convention. */
  predicate IsScope(fn: FunctionNode) {
    Utils.IsReactHookName(FunctionName(fn)) || Utils.IsReactComponentName(FunctionName(fn))
  }

  /** The present initializers of a declarator list, in order. */
  function DeclInits(decls: seq<Declarator>): seq<Expr> {
    if decls == [] then []
    else
      var last := decls[|decls| - 1];
      DeclInits(decls[..|decls| - 1]) + (if last.init.Some? then [last.init.value] else [])
  }

  /** The initializers of the VariableDeclarations among `stmts`, in document order;
      every other statement contributes nothing and is not entered. */
  function StmtInits(stmts: seq<Statement>): seq<Expr> {
    if stmts == [] then []
    else
      var last := stmts[|stmts| - 1];
      StmtInits(stmts[..|stmts| - 1])
        + (if last.VariableDeclaration? then DeclInits(last.declarations) else [])
  }

  /** The initializers a visit of `fn` examines: none unless the gate passes and the
      body is a block. */
  function ScannedInits(fn: FunctionNode): seq<Expr> {
    if IsScope(fn) && fn.body.BlockStatement? then StmtInits(fn.body.statements) else []
  }

  /** Order-preserving filter. */
  function Filter(p: Expr -> bool, s: seq<Expr>): (r: seq<Expr>)
    ensures forall k :: 0 <= k < |r| ==> r[k] in s && p(r[k])
  {
    if s == [] then []
    else
      var r := Filter(p, s[..|s| - 1]);
      assert forall x :: x in s[..|s| - 1] ==> x in s;
      r + (if p(s[|s| - 1]) then [s[|s| - 1]] else [])
  }

  // ---------------------------------------------------------------------------
  // name resolution and the gate
  // ---------------------------------------------------------------------------

  /** An anonymous function (no usable declaration id, no identifier declarator as
      parent) is never scanned. */
  lemma AnonymousFunctionSkipped(fn: FunctionNode)
    requires !(fn.kind == FunctionDeclaration && fn.id.Some? && fn.id.value != "")
    requires !(fn.parent.DeclaratorParent? && fn.parent.id.IdentifierPattern?)
    ensures ScannedInits(fn) == []
  {
  }

  /** A function expression takes its name from the declarator it initializes, so
      `const MyComponent = function() {...}` is scanned. */
  lemma DeclaratorNameIsUsed(fn: FunctionNode, own: Option<string>)
    requires fn.kind == FunctionExpression && fn.id == own
    requires fn.parent == DeclaratorParent(IdentifierPattern("MyComponent"))
    requires fn.body.BlockStatement?
    ensures ScannedInits(fn) == StmtInits(fn.body.statements)
  {
    assert FunctionName(fn) == Some("MyComponent");
    assert "MyComponent"[0] == 'M';
  }

  /** `function normalFunction() {...}` follows neither convention and is not scanned. */
  lemma NormalFunctionSkipped(fn: FunctionNode)
    requires fn.kind == FunctionDeclaration && fn.id == Some("normalFunction")
    ensures ScannedInits(fn) == []
  {
    assert FunctionName(fn) == Some("normalFunction");
    assert "normalFunction"[0] == 'n';
    assert "normalFunction"[..3] != "use" by {
      assert "normalFunction"[..3][0] == 'n';
    }
  }

  /** An expression-bodied arrow function is never scanned. */
  lemma ExpressionBodySkipped(fn: FunctionNode)
    requires fn.body.ExpressionBody?
    ensures ScannedInits(fn) == []
  {
  }

  // ---------------------------------------------------------------------------
  // the direct-body scan
  // ---------------------------------------------------------------------------

  lemma {:induction false} DeclInitsMembership(decls: seq<Declarator>, x: Expr)
    ensures x in DeclInits(decls) <==> exists j :: 0 <= j < |decls| && decls[j].init == Some(x)
  {
    if decls != [] {
      var init := decls[..|decls| - 1];
      DeclInitsMembership(init, x);
      assert forall j :: 0 <= j < |init| ==> decls[j] == init[j];
    }
  }

  /** An initializer is scanned exactly when it is the present init of some declarator
      of some VariableDeclaration standing directly in the statement list. */
  lemma {:induction false} StmtInitsMembership(stmts: seq<Statement>, x: Expr)
    ensures x in StmtInits(stmts) <==>
      exists i, j :: 0 <= i < |stmts| && stmts[i].VariableDeclaration?
                     && 0 <= j < |stmts[i].declarations| && stmts[i].declarations[j].init == Some(x)
  {
    if stmts != [] {
      var init := stmts[..|stmts| - 1];
      var last := stmts[|stmts| - 1];
      StmtInitsMembership(init, x);
      assert forall i :: 0 <= i < |init| ==> stmts[i] == init[i];
      if last.VariableDeclaration? {
        DeclInitsMembership(last.declarations, x);
      }
    }
  }

  /** The scan is compositional: the initializers of `a + b` are those of `a` followed
      by those of `b`, which is what makes reports come out in document order. */
  lemma {:induction false} StmtInitsConcat(a: seq<Statement>, b: seq<Statement>)
    ensures StmtInits(a + b) == StmtInits(a) + StmtInits(b)
  {
    if b == [] {
      assert a + b == a;
    } else {
      var b' := b[..|b| - 1];
      assert (a + b)[..|a + b| - 1] == a + b';
      assert (a + b)[|a + b| - 1] == b[|b| - 1];
      StmtInitsConcat(a, b');
    }
  }

  /** A statement other than a VariableDeclaration (a nested block, an `if`, a loop, an
      expression statement) adds nothing: declarations nested inside it are not seen. */
  lemma OtherStatementAddsNothing(a: seq<Statement>, b: seq<Statement>)
    ensures StmtInits(a + [OtherStatement] + b) == StmtInits(a + b)
  {
    StmtInitsConcat(a + [OtherStatement], b);
    StmtInitsConcat(a, [OtherStatement]);
    StmtInitsConcat(a, b);
    assert [OtherStatement][..0] == [];
  }

  // ---------------------------------------------------------------------------
  // the filter
  // ---------------------------------------------------------------------------

  lemma {:induction false} FilterMembership(p: Expr -> bool, s: seq<Expr>, x: Expr)
    ensures x in Filter(p, s) <==> x in s && p(x)
  {
    if s != [] {
      var init := s[..|s| - 1];
      FilterMembership(p, init, x);
      assert s == init + [s[|s| - 1]];
    }
  }

  lemma {:induction false} FilterConcat(p: Expr -> bool, a: seq<Expr>, b: seq<Expr>)
    ensures Filter(p, a + b) == Filter(p, a) + Filter(p, b)
  {
    if b == [] {
      assert a + b == a;
    } else {
      var b' := b[..|b| - 1];
      assert (a + b)[..|a + b| - 1] == a + b';
      assert (a + b)[|a + b| - 1] == b[|b| - 1];
      FilterConcat(p, a, b');
    }
  }

  // ---------------------------------------------------------------------------
  // one loop step of a visitor
  // ---------------------------------------------------------------------------

  lemma DeclInitsStep(decls: seq<Declarator>, j: nat)
    requires j < |decls|
    ensures DeclInits(decls[..j + 1])
         == DeclInits(decls[..j]) + (if decls[j].init.Some? then [decls[j].init.value] else [])
  {
    assert decls[..j + 1][..j] == decls[..j];
  }

  lemma StmtInitsStep(stmts: seq<Statement>, i: nat)
    requires i < |stmts|
    ensures StmtInits(stmts[..i + 1])
         == StmtInits(stmts[..i])
            + (if stmts[i].VariableDeclaration? then DeclInits(stmts[i].declarations) else [])
  {
    assert stmts[..i + 1][..i] == stmts[..i];
  }

  /** A loop step over a statement other than a VariableDeclaration adds no
      initializer. */
  lemma OtherStatementStep(stmts: seq<Statement>, i: nat)
    requires i < |stmts| && !stmts[i].VariableDeclaration?
    ensures StmtInits(stmts[..i + 1]) == StmtInits(stmts[..i])
  {
    StmtInitsStep(stmts, i);
    assert StmtInits(stmts[..i]) + [] == StmtInits(stmts[..i]);
  }

  lemma FilterStep(p: Expr -> bool, s: seq<Expr>, x: Expr)
    ensures Filter(p, s + [x]) == Filter(p, s) + (if p(x) then [x] else [])
  {
    assert (s + [x])[..|s|] == s;
  }

  /** The init of a declarator of a direct VariableDeclaration is scanned. */
  lemma DirectInitScanned(stmts: seq<Statement>, i: nat, j: nat)
    requires i < |stmts| && stmts[i].VariableDeclaration?
    requires j < |stmts[i].declarations| && stmts[i].declarations[j].init.Some?
    ensures stmts[i].declarations[j].init.value in StmtInits(stmts)
  {
    StmtInitsMembership(stmts, stmts[i].declarations[j].init.value);
  }

  // ---------------------------------------------------------------------------
  // initializers whose ranges lie inside the text
  // ---------------------------------------------------------------------------

  predicate InText(inits: seq<Expr>, unit: SourceUnit) {
    forall x :: x in inits ==> ValidRange(x.range, unit.text)
  }

  lemma FilterInText(p: Expr -> bool, s: seq<Expr>, unit: SourceUnit)
    requires InText(s, unit)
    ensures InText(Filter(p, s), unit)
  {
  }

  /** The declarators of a direct VariableDeclaration of a scanned body lie inside the
      text when every scanned initializer does. */
  lemma DeclarationsInText(stmts: seq<Statement>, i: nat, unit: SourceUnit)
    requires i < |stmts| && stmts[i].VariableDeclaration?
    requires InText(StmtInits(stmts), unit)
    ensures InText(DeclInits(stmts[i].declarations), unit)
  {
    forall x | x in DeclInits(stmts[i].declarations)
      ensures ValidRange(x.range, unit.text)
    {
      DeclInitsMembership(stmts[i].declarations, x);
      var j :| 0 <= j < |stmts[i].declarations| && stmts[i].declarations[j].init == Some(x);
      DirectInitScanned(stmts, i, j);
    }
  }

  // ---------------------------------------------------------------------------
  // one report per selected initializer
  // ---------------------------------------------------------------------------

  /** `mk` applied to each of `inits`, in order. */
  function MapInits<R>(mk: Expr --> R, inits: seq<Expr>): seq<R>
    requires forall x :: x in inits ==> mk.requires(x)
  {
    if inits == [] then []
    else
      assert forall x :: x in inits[..|inits| - 1] ==> x in inits;
      MapInits(mk, inits[..|inits| - 1]) + [mk(inits[|inits| - 1])]
  }

  lemma MapInitsStep<R>(mk: Expr --> R, inits: seq<Expr>, x: Expr)
    requires forall y :: y in inits + [x] ==> mk.requires(y)
    ensures forall y :: y in inits ==> mk.requires(y)
    ensures MapInits(mk, inits + [x]) == MapInits(mk, inits) + [mk(x)]
  {
    assert (inits + [x])[..|inits|] == inits;
  }

  lemma {:induction false} MapInitsConcat<R>(mk: Expr --> R, a: seq<Expr>, b: seq<Expr>)
    requires forall y :: y in a + b ==> mk.requires(y)
    ensures forall y :: y in a ==> mk.requires(y)
    ensures forall y :: y in b ==> mk.requires(y)
    ensures MapInits(mk, a + b) == MapInits(mk, a) + MapInits(mk, b)
  {
    if b == [] {
      assert a + b == a;
    } else {
      var b' := b[..|b| - 1];
      assert a + b == (a + b') + [b[|b| - 1]];
      MapInitsStep(mk, a + b', b[|b| - 1]);
      MapInitsConcat(mk, a, b');
      MapInitsStep(mk, b', b[|b| - 1]);
    }
  }

  /** Element `k` of the result is `mk` of initializer `k`. */
  lemma {:induction false} MapInitsIndex<R>(mk: Expr --> R, inits: seq<Expr>)
    requires forall x :: x in inits ==> mk.requires(x)
    ensures |MapInits(mk, inits)| == |inits|
    ensures forall k :: 0 <= k < |inits| ==> MapInits(mk, inits)[k] == mk(inits[k])
  {
    if inits != [] {
      var init := inits[..|inits| - 1];
      assert inits == init + [inits[|inits| - 1]];
      MapInitsStep(mk, init, inits[|inits| - 1]);
      MapInitsIndex(mk, init);
    }
  }
}
