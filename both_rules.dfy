/**
 * How the two rules relate: they never report the same initializer, and the text
 * either fix writes is a call of the hook it names, which neither rule reports.
 */
module BothRules {
  import opened Ast
  import Utils
  import RequireUseMemo
  import RequireUseCallback

  /** A new function is left to require-usecallback; everything require-usememo reports
      is something other than a function literal. */
  lemma RulesNeverShareAnInit(x: Expr)
    ensures !(RequireUseMemo.Eligible(x) && RequireUseCallback.Eligible(x))
  {
    RequireUseMemo.EligibleKinds(x);
    RequireUseCallback.EligibleKinds(x);
  }

  /** The memo wrapper's text is a call of `useMemo`, and a call of the identifier
      `useMemo` is reported by neither rule. */
  lemma MemoRewriteNotReported(node: Expr, unit: SourceUnit, again: Expr)
    requires ValidRange(node.range, unit.text)
    requires again.kind == Call(Ident(RequireUseMemo.BuildUseMemoWrapper(node, unit).hookName))
    ensures StartsWith(RequireUseMemo.BuildUseMemoWrapper(node, unit).text, "useMemo(")
    ensures !RequireUseMemo.Eligible(again) && !RequireUseCallback.Eligible(again)
  {
    var w := RequireUseMemo.BuildUseMemoWrapper(node, unit);
    var inner :| Utils.Unwrap(w.text, RequireUseMemo.MemoPrefix, Utils.EmptyDepsSuffix) == Some(inner);
    assert w.text[..|"useMemo("|] == RequireUseMemo.MemoPrefix[..|"useMemo("|];
    RequireUseMemo.EligibleKinds(again);
    RequireUseCallback.EligibleKinds(again);
    assert StartsWith("useMemo", "use");
  }

  /** The callback wrapper's text is a call of `useCallback`, and a call of the
      identifier `useCallback` is reported by neither rule. */
  lemma CallbackRewriteNotReported(node: Expr, unit: SourceUnit, again: Expr)
    requires ValidRange(node.range, unit.text)
    requires again.kind == Call(Ident(Utils.BuildUseCallbackWrapper(node, unit).hookName))
    ensures StartsWith(Utils.BuildUseCallbackWrapper(node, unit).text, "useCallback(")
    ensures !RequireUseMemo.Eligible(again) && !RequireUseCallback.Eligible(again)
  {
    var w := Utils.BuildUseCallbackWrapper(node, unit);
    var inner :| Utils.Unwrap(w.text, Utils.CallbackPrefix, Utils.EmptyDepsSuffix) == Some(inner);
    assert w.text[..|Utils.CallbackPrefix|] == Utils.CallbackPrefix;
    RequireUseMemo.EligibleKinds(again);
    RequireUseCallback.EligibleKinds(again);
    assert StartsWith("useCallback", "use");
  }
}
