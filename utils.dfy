/**
 * The helpers shared by both rules: the hook/component naming conventions, the
 * callback-rule eligibility test and wrapper text, and the decision that makes the
 * hook available through the first `import ... from 'react'` of the file.
 */
module Utils {
  import opened Ast
  import opened Edits

  const UpperLetters := "ABCDEFGHIJKLMNOPQRSTUVWXYZ"
  const Digits := "0123456789"

  predicate IsAsciiUpper(c: char) { 'A' <= c <= 'Z' }
  predicate IsAsciiDigit(c: char) { '0' <= c <= '9' }

  lemma UpperLettersAre(c: char)
    ensures c in UpperLetters <==> IsAsciiUpper(c)
  {
    if IsAsciiUpper(c) {
      assert UpperLetters[c as int - 'A' as int] == c;
    }
  }

  lemma DigitsAre(c: char)
    ensures c in Digits <==> IsAsciiDigit(c)
  {
    if IsAsciiDigit(c) {
      assert Digits[c as int - '0' as int] == c;
    }
  }

  // ---------------------------------------------------------------------------
  // naming conventions (an absent name is the empty string)
  // ---------------------------------------------------------------------------

  /** The pattern `^use[A-Z0-9]` (anything may follow) as a character-class test. */
  function IsReactHookName(name: Option<string>): (b: bool)
    ensures b <==> name.Some? && |name.value| >= 4 && name.value[..3] == "use"
                   && (IsAsciiUpper(name.value[3]) || IsAsciiDigit(name.value[3]))
  {
    var n := name.GetOr("");
    UpperLettersAre(if |n| > 3 then n[3] else 'a');
    DigitsAre(if |n| > 3 then n[3] else 'a');
    StartsWith(n, "use") && |n| > 3 && (n[3] in UpperLetters || n[3] in Digits)
  }

  /** The pattern `^[A-Z]` as a character-class test. */
  function IsReactComponentName(name: Option<string>): (b: bool)
    ensures b <==> name.Some? && |name.value| > 0 && IsAsciiUpper(name.value[0])
  {
    var n := name.GetOr("");
    UpperLettersAre(if |n| > 0 then n[0] else 'a');
    |n| > 0 && n[0] in UpperLetters
  }

  /** The two conventions never both hold: a hook name starts with a lower-case `u`. */
  lemma HookAndComponentNamesDisjoint(name: Option<string>)
    ensures !(IsReactHookName(name) && IsReactComponentName(name))
  {
    if IsReactHookName(name) {
      assert name.value[0] == name.value[..3][0] == 'u';
    }
  }

  // ---------------------------------------------------------------------------
  // callback rule helpers
  // ---------------------------------------------------------------------------

  /** isNewFunction: a freshly created function value. */
  predicate IsNewFunction(node: Option<Expr>) {
    node.Some? && (node.value.kind.ArrowFn? || node.value.kind.FnExpr?)
  }

  /** isUseCallbackWrapped: a call of the plain identifier `useCallback`. */
  predicate IsUseCallbackWrapped(node: Option<Expr>) {
    node.Some? && node.value.kind.Call? && node.value.kind.callee.Ident?
    && node.value.kind.callee.name == "useCallback"
  }

  /** Exactly arrow functions and function expressions are new functions; null, calls,
      objects, arrays, markup and literals are not. */
  lemma NewFunctionKinds(node: Option<Expr>)
    ensures IsNewFunction(node) <==> node.Some? && node.value.kind in {ArrowFn, FnExpr}
  {
  }

  /** Only the identifier callee counts as wrapped: `React.useCallback(...)`, any other
      callee and every non-call are not. */
  lemma UseCallbackWrappedOnlyByIdentifier(node: Option<Expr>)
    ensures IsUseCallbackWrapped(node) <==> node.Some? && node.value.kind == Call(Ident("useCallback"))
  {
  }

  /** The text of a wrapper and the hook it needs. */
  datatype Wrapper = Wrapper(text: string, hookName: string)

  /** `text` framed by exactly `prefix` and `suffix`, and what lies between. */
  function Unwrap(text: string, prefix: string, suffix: string): (inner: Option<string>)
    ensures inner.Some? ==> text == prefix + inner.value + suffix
  {
    if |prefix| + |suffix| <= |text| && text[..|prefix|] == prefix
       && text[|text| - |suffix|..] == suffix
    then
      var inner := text[|prefix|..|text| - |suffix|];
      assert text == text[..|prefix|] + inner + text[|text| - |suffix|..];
      Some(inner)
    else None
  }

  lemma UnwrapFramed(prefix: string, inner: string, suffix: string)
    ensures Unwrap(prefix + inner + suffix, prefix, suffix) == Some(inner)
  {
    var t := prefix + inner + suffix;
    assert t[..|prefix|] == prefix;
    assert t[|t| - |suffix|..] == suffix;
    assert t[|prefix|..|t| - |suffix|] == inner;
  }

  /** `sub` occurs as a contiguous piece of `s`. */
  predicate Occurs(sub: string, s: string) {
    exists i :: 0 <= i <= |s| - |sub| && OccursAt(sub, s, i)
  }

  predicate OccursAt(sub: string, s: string, i: nat)
    requires i + |sub| <= |s|
  {
    s[i..i + |sub|] == sub
  }

  lemma OccursInFramed(prefix: string, inner: string, suffix: string)
    ensures Occurs(inner, prefix + inner + suffix)
  {
    var t := prefix + inner + suffix;
    assert OccursAt(inner, t, |prefix|);
  }

  const CallbackPrefix := "useCallback("
  const EmptyDepsSuffix := ", [])"

  /** buildUseCallbackWrapper: the original text passed, unchanged, as the first
      argument of `useCallback` with an empty dependency list. */
  function BuildUseCallbackWrapper(node: Expr, unit: SourceUnit): (w: Wrapper)
    requires ValidRange(node.range, unit.text)
    ensures w.hookName == "useCallback"
    ensures Unwrap(w.text, CallbackPrefix, EmptyDepsSuffix) == Some(GetText(unit, node.range))
    ensures Occurs(GetText(unit, node.range), w.text)
  {
    var original := GetText(unit, node.range);
    UnwrapFramed(CallbackPrefix, original, EmptyDepsSuffix);
    OccursInFramed(CallbackPrefix, original, EmptyDepsSuffix);
    Wrapper(CallbackPrefix + original + EmptyDepsSuffix, "useCallback")
  }

  // ---------------------------------------------------------------------------
  // ensureReactImport
  // ---------------------------------------------------------------------------

  predicate IsReactImport(item: Item) {
    item.Import? && item.decl.source == "react"
  }

  /** `program.body.find(...)`: the first import declaration whose source is 'react'. */
  function FindReactImport(body: seq<Item>): (r: Option<ImportDeclaration>)
    ensures r.None? <==> forall k :: 0 <= k < |body| ==> !IsReactImport(body[k])
    ensures r.Some? ==> exists k :: 0 <= k < |body| && body[k] == Import(r.value)
                          && IsReactImport(body[k]) && forall j :: 0 <= j < k ==> !IsReactImport(body[j])
  {
    if body == [] then None
    else if IsReactImport(body[0]) then Some(body[0].decl)
    else
      var r := FindReactImport(body[1..]);
      assert forall j :: 1 <= j < |body| ==> body[j] == body[1..][j - 1];
      r
  }

  /** An ImportSpecifier whose IMPORTED name (not its local alias) is `hookName`. */
  predicate IsNamedImportOf(s: Specifier, hookName: string) {
    s.ImportSpecifier? && s.imported == IdentName(hookName)
  }

  /** `specifiers.some(...)`. */
  function HasNamed(specs: seq<Specifier>, hookName: string): (b: bool)
    ensures b <==> exists k :: 0 <= k < |specs| && IsNamedImportOf(specs[k], hookName)
  {
    if specs == [] then false
    else
      var b := IsNamedImportOf(specs[0], hookName) || HasNamed(specs[1..], hookName);
      assert forall j :: 1 <= j < |specs| ==> specs[j] == specs[1..][j - 1];
      b
  }

  /** `specifiers.filter(s => s.type === 'ImportSpecifier')`. */
  function NamedSpecs(specs: seq<Specifier>): (r: seq<Specifier>)
    ensures forall k :: 0 <= k < |r| ==> r[k].ImportSpecifier?
    ensures r == [] <==> forall k :: 0 <= k < |specs| ==> !specs[k].ImportSpecifier?
  {
    if specs == [] then []
    else
      var init := specs[..|specs| - 1];
      var last := specs[|specs| - 1];
      assert forall j :: 0 <= j < |init| ==> specs[j] == init[j];
      NamedSpecs(init) + (if last.ImportSpecifier? then [last] else [])
  }

  /** The position of the last ImportSpecifier of the list, -1 when there is none. */
  function LastNamedIndex(specs: seq<Specifier>): (k: int)
    ensures -1 <= k < |specs|
    ensures k >= 0 ==> specs[k].ImportSpecifier?
    ensures forall j :: k < j < |specs| ==> !specs[j].ImportSpecifier?
  {
    if specs == [] then -1
    else if specs[|specs| - 1].ImportSpecifier? then |specs| - 1
    else
      var init := specs[..|specs| - 1];
      assert forall j :: 0 <= j < |init| ==> specs[j] == init[j];
      LastNamedIndex(init)
  }

  /** The last element of the filter is the last ImportSpecifier of the list. */
  lemma {:induction false} LastNamedSpec(specs: seq<Specifier>, k: nat)
    requires k < |specs| && specs[k].ImportSpecifier?
    requires forall j :: k < j < |specs| ==> !specs[j].ImportSpecifier?
    ensures var r := NamedSpecs(specs); r != [] && r[|r| - 1] == specs[k]
  {
    var init := specs[..|specs| - 1];
    var last := specs[|specs| - 1];
    if k == |specs| - 1 {
      assert NamedSpecs(specs) == NamedSpecs(init) + [last];
    } else {
      assert NamedSpecs(specs) == NamedSpecs(init) + [];
      assert NamedSpecs(init) + [] == NamedSpecs(init);
      assert init[k] == specs[k];
      assert forall j :: k < j < |init| ==> init[j] == specs[j];
      LastNamedSpec(init, k);
    }
  }

  /** The match of the pattern `^[ ]*` (never fails): the longest prefix of spaces. */
  function LeadingSpaces(s: string): (indent: string)
    ensures StartsWith(s, indent)
    ensures forall k :: 0 <= k < |indent| ==> indent[k] == ' '
    ensures |indent| == |s| || s[|indent|] != ' '
  {
    if s != [] && s[0] == ' ' then
      var rest := LeadingSpaces(s[1..]);
      assert s == [s[0]] + s[1..];
      " " + rest
    else ""
  }

  function ImportStatement(hookName: string): string {
    "import { " + hookName + " } from 'react';"
  }

  const NamespaceSeparator := "\n        "

  /** ensureReactImport: zero or one edit that makes `hookName` available. */
  function EnsureReactImport(unit: SourceUnit, hookName: string): (edits: seq<Edit>)
    ensures |edits| <= 1
    ensures edits == [] <==> FindReactImport(unit.body).Some?
                             && (HasNamed(FindReactImport(unit.body).value.specifiers, hookName)
                                 || FindReactImport(unit.body).value.specifiers == [])
  {
    match FindReactImport(unit.body)
    case None =>
      if StartsWith(unit.text, "\n") then
        var indent := LeadingSpaces(unit.text[1..]);
        [InsertAfterRange(Range(0, 1), indent + ImportStatement(hookName) + "\n")]
      else
        [InsertAfterRange(Range(0, 0), ImportStatement(hookName) + "\n")]
    case Some(decl) =>
      if HasNamed(decl.specifiers, hookName) then []
      else
        var named := NamedSpecs(decl.specifiers);
        var specs := decl.specifiers;
        if |named| > 0 then
          [InsertAfterNode(named[|named| - 1].range, ", " + hookName)]
        else if |specs| > 0 && specs[|specs| - 1].ImportNamespaceSpecifier? then
          [InsertAfterNode(decl.range, NamespaceSeparator + ImportStatement(hookName))]
        else if |specs| > 0 then
          [InsertAfterNode(specs[|specs| - 1].range, ", { " + hookName + " }")]
        else []
  }

  /** Idempotence: once the first react import names the hook, nothing is added. */
  lemma AlreadyImportedNoEdit(unit: SourceUnit, hookName: string, k: nat, j: nat)
    requires k < |unit.body| && IsReactImport(unit.body[k])
    requires forall i :: 0 <= i < k ==> !IsReactImport(unit.body[i])
    requires j < |unit.body[k].decl.specifiers| && IsNamedImportOf(unit.body[k].decl.specifiers[j], hookName)
    ensures EnsureReactImport(unit, hookName) == []
  {
    var r := FindReactImport(unit.body);
    assert r.Some?;
    var k' :| 0 <= k' < |unit.body| && unit.body[k'] == Import(r.value)
              && IsReactImport(unit.body[k']) && forall i :: 0 <= i < k' ==> !IsReactImport(unit.body[i]);
    assert k' == k;
  }

  /** The alias is not looked at: `import { useCallback as cb } from 'react'` counts as
      importing `useCallback`. */
  lemma AliasCountsAsImported(text: string, hookName: string, alias: string, r: Range, decl: Range)
    ensures EnsureReactImport(SourceUnit(text, [Import(ImportDeclaration("react",
              [ImportSpecifier(IdentName(hookName), alias, r)], decl))]), hookName) == []
  {
  }

  /** No react import: one insertion at the start of the file, after a leading newline
      and at the indentation that follows it. */
  lemma NoReactImportInsertsAtStart(unit: SourceUnit, hookName: string)
    requires forall k :: 0 <= k < |unit.body| ==> !IsReactImport(unit.body[k])
    ensures var edits := EnsureReactImport(unit, hookName);
      |edits| == 1 && edits[0].InsertAfterRange? &&
      if |unit.text| > 0 && unit.text[0] == '\n' then
        edits[0].range == Range(0, 1) &&
        exists indent: string ::
          && edits[0].text == indent + ImportStatement(hookName) + "\n"
          && (forall i :: 0 <= i < |indent| ==> indent[i] == ' ')
          && StartsWith(unit.text[1..], indent)
          && (1 + |indent| == |unit.text| || unit.text[1 + |indent|] != ' ')
      else
        edits[0] == InsertAfterRange(Range(0, 0), ImportStatement(hookName) + "\n")
  {
    var edits := EnsureReactImport(unit, hookName);
    if |unit.text| > 0 && unit.text[0] == '\n' {
      assert StartsWith(unit.text, "\n");
      var indent := LeadingSpaces(unit.text[1..]);
      assert edits[0].text == indent + ImportStatement(hookName) + "\n";
    } else {
      assert !StartsWith(unit.text, "\n");
    }
  }

  /** A react import with named specifiers, none of them the hook: `, hook` after the
      last named specifier `k`. */
  lemma NamedImportExtended(unit: SourceUnit, hookName: string, k: nat)
    requires FindReactImport(unit.body).Some?
    requires var specs := FindReactImport(unit.body).value.specifiers;
      && !HasNamed(specs, hookName)
      && k < |specs| && specs[k].ImportSpecifier?
      && forall j :: k < j < |specs| ==> !specs[j].ImportSpecifier?
    ensures EnsureReactImport(unit, hookName)
         == [InsertAfterNode(FindReactImport(unit.body).value.specifiers[k].range, ", " + hookName)]
  {
    var specs := FindReactImport(unit.body).value.specifiers;
    LastNamedSpec(specs, k);
  }

  /** No named specifier and a namespace specifier last: a separate import declaration
      after the whole existing one. */
  lemma NamespaceImportGetsNewDeclaration(unit: SourceUnit, hookName: string)
    requires FindReactImport(unit.body).Some?
    requires var specs := FindReactImport(unit.body).value.specifiers;
      (forall k :: 0 <= k < |specs| ==> !specs[k].ImportSpecifier?)
      && |specs| > 0 && specs[|specs| - 1].ImportNamespaceSpecifier?
    ensures EnsureReactImport(unit, hookName) ==
      [InsertAfterNode(FindReactImport(unit.body).value.range,
                       "\n        import { " + hookName + " } from 'react';")]
  {
    var specs := FindReactImport(unit.body).value.specifiers;
    assert !HasNamed(specs, hookName);
    assert NamespaceSeparator + ImportStatement(hookName) ==
      "\n        import { " + hookName + " } from 'react';";
  }

  /** No named specifier and a default specifier last: `, { hook }` after it. */
  lemma DefaultImportGetsNamedGroup(unit: SourceUnit, hookName: string)
    requires FindReactImport(unit.body).Some?
    requires var specs := FindReactImport(unit.body).value.specifiers;
      (forall k :: 0 <= k < |specs| ==> !specs[k].ImportSpecifier?)
      && |specs| > 0 && !specs[|specs| - 1].ImportNamespaceSpecifier?
    ensures var specs := FindReactImport(unit.body).value.specifiers;
      specs[|specs| - 1].ImportDefaultSpecifier? &&
      EnsureReactImport(unit, hookName) ==
        [InsertAfterNode(specs[|specs| - 1].range, ", { " + hookName + " }")]
  {
    var specs := FindReactImport(unit.body).value.specifiers;
    assert !HasNamed(specs, hookName);
  }

  /** A react import without specifiers (`import 'react'`) gets no edit. */
  lemma BareImportNoEdit(unit: SourceUnit, hookName: string)
    requires FindReactImport(unit.body).Some? && FindReactImport(unit.body).value.specifiers == []
    ensures EnsureReactImport(unit, hookName) == []
  {
  }

  /** Only the first react import is consulted: whatever follows it does not change the
      edit, so a later `import { hook } from 'react'` does not stop an insertion. */
  lemma LaterImportsIgnored(text: string, before: seq<Item>, decl: ImportDeclaration,
                            after: seq<Item>, hookName: string)
    requires forall k :: 0 <= k < |before| ==> !IsReactImport(before[k])
    requires decl.source == "react"
    ensures EnsureReactImport(SourceUnit(text, before + [Import(decl)] + after), hookName)
         == EnsureReactImport(SourceUnit(text, before + [Import(decl)]), hookName)
  {
    FirstReactImportAfter(before, decl, after);
    FirstReactImportAfter(before, decl, []);
    assert before + [Import(decl)] + [] == before + [Import(decl)];
  }

  lemma {:induction false} FirstReactImportAfter(before: seq<Item>, decl: ImportDeclaration, after: seq<Item>)
    requires forall k :: 0 <= k < |before| ==> !IsReactImport(before[k])
    requires decl.source == "react"
    ensures FindReactImport(before + [Import(decl)] + after) == Some(decl)
  {
    var body := before + [Import(decl)] + after;
    if before == [] {
      assert body[0] == Import(decl);
    } else {
      assert body[0] == before[0];
      assert body[1..] == before[1..] + [Import(decl)] + after;
      FirstReactImportAfter(before[1..], decl, after);
    }
  }

  /** The namespace branch is not idempotent: after its edit the namespace import is
      still the first react import, so the new `import { hook }` after it is ignored
      and another one would be inserted. */
  lemma NamespaceBranchRepeats(text: string, ns: string, r1: Range, d1: Range, r2: Range, d2: Range,
                               hookName: string)
    ensures var unit := SourceUnit(text, [
              Import(ImportDeclaration("react", [ImportNamespaceSpecifier(ns, r1)], d1)),
              Import(ImportDeclaration("react", [ImportSpecifier(IdentName(hookName), hookName, r2)], d2))]);
      EnsureReactImport(unit, hookName) ==
        [InsertAfterNode(d1, "\n        import { " + hookName + " } from 'react';")]
  {
    var first := Import(ImportDeclaration("react", [ImportNamespaceSpecifier(ns, r1)], d1));
    var second := Import(ImportDeclaration("react", [ImportSpecifier(IdentName(hookName), hookName, r2)], d2));
    FirstReactImportAfter([], first.decl, [second]);
    assert [] + [first] + [second] == [first, second];
    assert NamespaceSeparator + ImportStatement(hookName) ==
      "\n        import { " + hookName + " } from 'react';";
  }

  /** Where the import edit lands: at offset 0 or 1 when the file has no react import,
      else at the end of one of the first react import's specifiers or of the
      declaration itself.  Every import edit is an insertion. */
  lemma ImportEditAnchor(unit: SourceUnit, hookName: string)
    ensures var imp := EnsureReactImport(unit, hookName);
      imp != [] ==>
        && imp[0].Start() == imp[0].End()
        && match FindReactImport(unit.body)
           case None => imp[0].Start() == 0 || (imp[0].Start() == 1 && StartsWith(unit.text, "\n"))
           case Some(decl) =>
             imp[0].Start() == decl.range.end
             || exists k :: 0 <= k < |decl.specifiers| && imp[0].Start() == decl.specifiers[k].range.end
  {
    match FindReactImport(unit.body)
    case None =>
    case Some(decl) =>
      var specs := decl.specifiers;
      var named := NamedSpecs(specs);
      if HasNamed(specs, hookName) {
      } else if |named| > 0 {
        var k := LastNamedIndex(specs);
        LastNamedSpec(specs, k);
        assert EnsureReactImport(unit, hookName)[0].Start() == specs[k].range.end;
      } else if |specs| > 0 && specs[|specs| - 1].ImportNamespaceSpecifier? {
      } else if |specs| > 0 {
        assert EnsureReactImport(unit, hookName)[0].Start() == specs[|specs| - 1].range.end;
      }
  }


  // ---------------------------------------------------------------------------
  // one report's fix: the replaced initializer plus the import edit
  // ---------------------------------------------------------------------------

  /** What a parsed file guarantees about an initializer range `r` and the import
      declarations: the first react import (and its specifiers) lies inside the text
      and outside `r`; with no react import, a leading newline is not part of `r`. */
  predicate ImportLayout(unit: SourceUnit, r: Range) {
    match FindReactImport(unit.body)
    case None => !StartsWith(unit.text, "\n") || 1 <= r.start
    case Some(decl) =>
      && decl.range.end <= |unit.text|
      && (decl.range.end <= r.start || r.end <= decl.range.start)
      && forall k :: 0 <= k < |decl.specifiers| ==>
           decl.range.start <= decl.specifiers[k].range.end <= decl.range.end
  }

  /** The edits of one fix never overlap, so the host can apply them: the replaced
      initializer comes out wrapped, and the import edit (if any) lands before or after
      it at its own offset. */
  lemma ReplaceWithImportApplies(unit: SourceUnit, r: Range, text: string, hookName: string)
    requires r.start < r.end <= |unit.text|
    requires ImportLayout(unit, r)
    ensures var imp := EnsureReactImport(unit, hookName);
      imp != [] ==> imp[0].Start() <= r.start || r.end <= imp[0].Start() <= |unit.text|
    ensures var src, imp := unit.text, EnsureReactImport(unit, hookName);
      imp == [] ==> ApplyFix(src, [Replace(r, text)] + imp) == Some(src[..r.start] + text + src[r.end..])
    ensures var src, imp := unit.text, EnsureReactImport(unit, hookName);
      imp != [] && imp[0].Start() <= r.start ==>
        ApplyFix(src, [Replace(r, text)] + imp) ==
          Some(src[..imp[0].Start()] + imp[0].Text() + src[imp[0].Start()..r.start] + text + src[r.end..])
    ensures var src, imp := unit.text, EnsureReactImport(unit, hookName);
      imp != [] && r.end <= imp[0].Start() <= |src| ==>
        ApplyFix(src, [Replace(r, text)] + imp) ==
          Some(src[..r.start] + text + src[r.end..imp[0].Start()] + imp[0].Text() + src[imp[0].Start()..])
  {
    var src := unit.text;
    var imp := EnsureReactImport(unit, hookName);
    var rep := Replace(r, text);
    if imp == [] {
      assert [rep] + imp == [rep];
      ApplyOne(src, rep);
    } else {
      var e := imp[0];
      assert [rep] + imp == [rep, e];
      ImportEditAnchor(unit, hookName);
      var p := e.Start();
      assert p <= r.start || r.end <= p by {
        match FindReactImport(unit.body)
        case None =>
        case Some(decl) =>
          if p != decl.range.end {
            var k :| 0 <= k < |decl.specifiers| && p == decl.specifiers[k].range.end;
          }
      }
      assert p <= |src| by {
        match FindReactImport(unit.body)
        case None =>
          if p == 1 {
            assert StartsWith(src, "\n");
          }
        case Some(decl) =>
          if p != decl.range.end {
            var k :| 0 <= k < |decl.specifiers| && p == decl.specifiers[k].range.end;
          }
      }
      if p <= r.start {
        ApplyTwo(src, e, rep);
      } else {
        ApplyTwo(src, rep, e);
      }
    }
  }

  /** With the first react import's last named specifier `k` (none naming the hook)
      ending before the replaced range, the fix appends `, hook` there and replaces
      the range. */
  lemma NamedImportFixApplies(unit: SourceUnit, r: Range, text: string, hookName: string, k: nat)
    requires r.start < r.end <= |unit.text|
    requires ImportLayout(unit, r)
    requires FindReactImport(unit.body).Some?
    requires var decl := FindReactImport(unit.body).value;
      && !HasNamed(decl.specifiers, hookName)
      && k < |decl.specifiers| && decl.specifiers[k].ImportSpecifier?
      && (forall j :: k < j < |decl.specifiers| ==> !decl.specifiers[j].ImportSpecifier?)
      && decl.range.end <= r.start
    ensures var src, p := unit.text, FindReactImport(unit.body).value.specifiers[k].range.end;
      && p <= r.start
      && ApplyFix(src, [Replace(r, text)] + EnsureReactImport(unit, hookName))
         == Some(src[..p] + (", " + hookName) + src[p..r.start] + text + src[r.end..])
  {
    var decl := FindReactImport(unit.body).value;
    var ins := InsertAfterNode(decl.specifiers[k].range, ", " + hookName);
    NamedImportExtended(unit, hookName, k);
    assert decl.range.start <= decl.specifiers[k].range.end <= decl.range.end;
    assert [Replace(r, text)] + EnsureReactImport(unit, hookName) == [Replace(r, text), ins];
    ApplyTwo(unit.text, ins, Replace(r, text));
  }

  /** Without a react import and with a text not starting with a newline, the fix puts
      the import statement on a line of its own at offset 0 and replaces the range. */
  lemma NoImportFixAppliesAtStart(unit: SourceUnit, r: Range, text: string, hookName: string)
    requires forall k :: 0 <= k < |unit.body| ==> !IsReactImport(unit.body[k])
    requires r.start < r.end <= |unit.text|
    requires !StartsWith(unit.text, "\n")
    ensures var src := unit.text;
      ApplyFix(src, [Replace(r, text)] + EnsureReactImport(unit, hookName))
        == Some((ImportStatement(hookName) + "\n") + src[..r.start] + text + src[r.end..])
  {
    var src := unit.text;
    var ins := InsertAfterRange(Range(0, 0), ImportStatement(hookName) + "\n");
    assert FindReactImport(unit.body).None?;
    assert [Replace(r, text)] + EnsureReactImport(unit, hookName) == [Replace(r, text), ins];
    ApplyTwo(src, ins, Replace(r, text));
    assert src[..0] == [] && src[0..r.start] == src[..r.start];
    assert [] + (ImportStatement(hookName) + "\n") == ImportStatement(hookName) + "\n";
  }

  /** Without a react import and with a text starting with a newline, the fix puts the
      import statement, indented like the line that follows, right after that newline
      and replaces the range. */
  lemma NoImportFixAppliesAfterNewline(unit: SourceUnit, r: Range, text: string, hookName: string)
    requires forall k :: 0 <= k < |unit.body| ==> !IsReactImport(unit.body[k])
    requires 1 <= r.start < r.end <= |unit.text|
    requires StartsWith(unit.text, "\n")
    ensures var src := unit.text;
      ApplyFix(src, [Replace(r, text)] + EnsureReactImport(unit, hookName))
        == Some("\n" + (LeadingSpaces(src[1..]) + ImportStatement(hookName) + "\n")
                + src[1..r.start] + text + src[r.end..])
  {
    var src := unit.text;
    var ins := InsertAfterRange(Range(0, 1), LeadingSpaces(src[1..]) + ImportStatement(hookName) + "\n");
    assert FindReactImport(unit.body).None?;
    assert [Replace(r, text)] + EnsureReactImport(unit, hookName) == [Replace(r, text), ins];
    ApplyTwo(src, ins, Replace(r, text));
    assert src[..1] == "\n";
  }
}
