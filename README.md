# eslint-plugin-react-memo: the detection-and-fix engine, in Dafny

The plugin has two ESLint rules, `require-usememo` and `require-usecallback`. Both
visit every function of a file. Inside a custom hook (a name starting with `use`
followed by an upper-case letter or a digit) or a component (a name starting with an
upper-case letter), they look at the variables declared directly in the function's
block body.

- `require-usememo` reports every initializer that computes a value: a call that is
  not a hook call and not a `console` call, an object or array literal, or a JSX
  element or fragment. Its fix wraps the initializer in `useMemo(() => ..., [])`.
- `require-usecallback` reports every initializer that is a new function: an arrow
  function or a function expression. Its fix wraps it in `useCallback(..., [])`.

Both fixes also make the hook available through the FIRST `import ... from 'react'`
of the file (`ensureReactImport`). That step is a five-way decision:

1. With no react import, add a new import line at the top of the file.
2. If the hook is already imported, do nothing.
3. Otherwise, if the import has named specifiers, append `, hook` after the last one.
4. Otherwise, if the last specifier is a namespace, add a second import declaration.
5. Otherwise, add `, { hook }` after the default specifier. An import without
   specifiers gets no edit.

The model has these modules:

- `Ast`: the slice of the ESTree tree the rules read, plus the source text. Each node
  has a half-open character range, and `GetText` is `text[start..end]`. A function
  node carries what the parser's parent pointer would tell it about its declarator.
- `Edits`: the fixer's three edit kinds, the report record, and `ApplyFix`. `ApplyFix`
  is how the ESLint host applies one report's fix: it sorts the edits by range,
  refuses overlapping ones and splices them in. It exists only so that end-to-end
  outputs can be stated. `Edits.SortFixCorrect` (with `Edits.InsertSortedSorted`
  and `Edits.InsertSortedPermutes`) checks this model of the host's sort: the result
  is ordered by range and keeps every edit. It is about the host model, not about
  the plugin's code, and so has no row below.
- `Utils` (`src/rules/utils.ts`) covers:
  - the naming conventions, restated as explicit character-class tests;
  - the callback rule's eligibility helpers and its wrapper text;
  - `ensureReactImport`.
- `Scope`: the part both visitors share. It holds:
  - name resolution: the id of a function declaration, else the identifier bound by
    the parent declarator;
  - the hook/component gate;
  - the specification functions of the direct-body scan. `StmtInits`/`DeclInits`
    give the initializers in document order, and `Filter` and `MapInits` turn them
    into reports.
- `RequireUseMemo` holds the memo rule's pure helpers and its visitor.
- `RequireUseCallback` holds the callback rule's visitor.
  - In both rules the visitor is a method with two nested loops. The outer loop,
    `VisitStatements`, runs over the body's statements. The inner loop,
    `VisitDeclarations`, runs over one declaration's declarators.
  - The visitors return the sequence of reports that the source hands to
    `context.report` one at a time.
  - Each loop is proved against the specification functions. Each step of a loop is
    one lemma.
- `BothRules`: how the two rules relate to each other.

Behaviours the model keeps exactly as the code has them:

- Only the first react import is consulted. A later `import { useMemo } from 'react'`
  does not stop an insertion.
- The already-imported test compares the imported name, not the local alias.
- Any identifier callee starting with `use` is excluded, which covers the explicit
  list of hook names.
- After the namespace branch has run, the namespace import is still the first react
  import, so requesting the same hook again would insert another declaration
  (`Utils.NamespaceBranchRepeats`).

## Model

| member | source | states |
|---|---|---|
| Utils.IsReactHookName | src/rules/utils.ts:13-16 | holds iff the name is present, has at least 4 characters, starts with `use`, and its fourth character is `A`-`Z` or `0`-`9`; an absent name is false |
| Utils.IsReactComponentName | src/rules/utils.ts:21-24 | holds iff the name is present, non-empty and starts with `A`-`Z` |
| Utils.HookAndComponentNamesDisjoint | src/rules/utils.ts:13-24 | no name follows both conventions |
| Utils.IsNewFunction | src/rules/utils.ts:29-39 | isNewFunction; specified by Utils.NewFunctionKinds: true exactly for a present arrow function or function expression |
| Utils.IsUseCallbackWrapped | src/rules/utils.ts:44-51 | isUseCallbackWrapped; specified by Utils.UseCallbackWrappedOnlyByIdentifier: true exactly for a call of the identifier `useCallback` |
| Utils.NewFunctionKinds | src/rules/utils.ts:29-39 | isNewFunction holds exactly for a present arrow function or function expression; null, calls, objects, arrays, JSX and literals are not new functions |
| Utils.UseCallbackWrappedOnlyByIdentifier | src/rules/utils.ts:44-51 | isUseCallbackWrapped holds exactly for a call whose callee is the identifier `useCallback`; `React.useCallback(...)` does not count |
| Utils.BuildUseCallbackWrapper | src/rules/utils.ts:56-62 | the hook is `useCallback`; the text is exactly `useCallback(` + original text + `, [])` (it unwraps back to the original), so the original occurs in it verbatim |
| Utils.IsReactImport | src/rules/utils.ts:75-76 | the test of the `find` callback: an import declaration whose source is `react`; used by Utils.FindReactImport, whose contract states the search |
| Utils.IsNamedImportOf | src/rules/utils.ts:110-114 | the test of the `some` callback: an ImportSpecifier whose imported identifier is the hook; used by Utils.HasNamed and Utils.AliasCountsAsImported |
| Utils.FindReactImport | src/rules/utils.ts:74-77 | None iff no top-level import has source `react`; otherwise the result is the declaration of the first such import |
| Utils.HasNamed | src/rules/utils.ts:109-115 | true iff some specifier is an ImportSpecifier whose imported identifier is the hook |
| Utils.NamedSpecs | src/rules/utils.ts:121-123 | the filter keeps only ImportSpecifiers, and is empty iff the list has none |
| Utils.LastNamedIndex | src/rules/utils.ts:127 | the position of the last ImportSpecifier: that entry is one, and no entry after it is |
| Utils.LastNamedSpec | src/rules/utils.ts:127 | the last element of the filtered list is the last ImportSpecifier of the specifier list |
| Utils.LeadingSpaces | src/rules/utils.ts:87-89 | the match of `^[ ]*`: a prefix of the text, made only of spaces, and maximal |
| Utils.ImportStatement | src/rules/utils.ts:94 | the import line `import { hook } from 'react';`; its placement is stated by Utils.NoReactImportInsertsAtStart and Utils.NamespaceImportGetsNewDeclaration |
| Utils.EnsureReactImport | src/rules/utils.ts:68-157 | at most one edit; no edit iff there is a react import that already names the hook or has no specifiers |
| Utils.NoReactImportInsertsAtStart | src/rules/utils.ts:79-106 | with no react import: exactly one insertion. After a leading newline it is range [0,1], with the maximal run of spaces that follows as indent, plus `import { hook } from 'react';\n`; otherwise it is range [0,0] with no indent |
| Utils.AlreadyImportedNoEdit | src/rules/utils.ts:108-116 | idempotence: once the first react import has a named specifier for the hook, the result is empty |
| Utils.AliasCountsAsImported | src/rules/utils.ts:109-116 | `import { hook as alias } from 'react'` counts as importing the hook, whatever the alias |
| Utils.NamedImportExtended | src/rules/utils.ts:121-133 | with named specifiers, none naming the hook: the single edit inserts `, hook` after the last named specifier |
| Utils.NamespaceImportGetsNewDeclaration | src/rules/utils.ts:138-149 | with no named specifier and a namespace specifier last: the single edit inserts a new `import { hook } from 'react';` line after the whole declaration |
| Utils.DefaultImportGetsNamedGroup | src/rules/utils.ts:151-154 | with no named specifier and a non-namespace specifier last: that specifier is the default one, and `, { hook }` is inserted after it |
| Utils.BareImportNoEdit | src/rules/utils.ts:156 | a react import with no specifiers gets no edit |
| Utils.FirstReactImportAfter | src/rules/utils.ts:74-77 | the first react import is found whatever items follow it |
| Utils.LaterImportsIgnored | src/rules/utils.ts:74-77 | items after the first react import do not change the edit |
| Utils.NamespaceBranchRepeats | src/rules/utils.ts:141-149 | a namespace import followed by `import { hook } from 'react'` still gets the new-declaration edit, so the namespace branch is not idempotent |
| Utils.ImportEditAnchor | src/rules/utils.ts:79-157 | every import edit is an insertion. With no react import it sits at offset 0, or at 1 after a leading newline. Otherwise it sits at the end of the declaration or of one of its specifiers |
| Utils.ReplaceWithImportApplies | src/rules/require-usecallback/index.ts:79-84 | the replacement and the import edit never overlap. The host applies the fix as the import text spliced at its anchor plus the replaced initializer, whether the anchor lies before or after it |
| Utils.NamedImportFixApplies | src/rules/utils.ts:129-132 | with the last named specifier before the initializer, applying the fix gives the text with `, hook` after that specifier and the initializer replaced |
| Utils.NoImportFixAppliesAtStart | src/rules/utils.ts:98-104 | with no react import and no leading newline, applying the fix gives the import line at offset 0, then the text with the initializer replaced |
| Utils.NoImportFixAppliesAfterNewline | src/rules/utils.ts:84-96 | with no react import and a leading newline, applying the fix gives the newline, then the indented import line, then the rest with the initializer replaced |
| Scope.FunctionName | src/rules/require-usememo/index.ts:131-137 | the visited function's name; specified by Scope.AnonymousFunctionSkipped, Scope.DeclaratorNameIsUsed and Scope.NormalFunctionSkipped |
| Scope.IsScope | src/rules/require-usememo/index.ts:139 | the hook-or-component gate; its effect is stated by RequireUseMemo.ReportedExactly and RequireUseCallback.ReportedExactly |
| Scope.ScannedInits | src/rules/require-usememo/index.ts:139-150 | the initializers a visit examines; specified by Scope.ExpressionBodySkipped, Scope.AnonymousFunctionSkipped and the two ReportedExactly lemmas |
| Scope.StmtInits | src/rules/require-usememo/index.ts:145-147 | the initializers of the direct VariableDeclarations; specified by Scope.StmtInitsMembership, Scope.StmtInitsConcat and Scope.OtherStatementAddsNothing |
| Scope.DeclInits | src/rules/require-usememo/index.ts:149-151 | the present initializers of one declaration; specified by Scope.DeclInitsMembership |
| Scope.Filter | src/rules/require-usememo/index.ts:151-152 | keeps, in order, only the initializers that pass the test; specified by its own ensures and Scope.FilterMembership |
| Scope.AnonymousFunctionSkipped | src/rules/require-usememo/index.ts:131-139 | a function with no usable declaration id and no identifier declarator as parent is never scanned |
| Scope.DeclaratorNameIsUsed | src/rules/require-usecallback/index.ts:48-56 | `const MyComponent = function() {...}` takes its name from the declarator and is scanned, whatever its own id |
| Scope.NormalFunctionSkipped | src/rules/require-usecallback/index.ts:48-56 | `function normalFunction() {...}` follows neither convention and is not scanned |
| Scope.ExpressionBodySkipped | src/rules/require-usememo/index.ts:142-143 | an expression-bodied arrow is never scanned |
| Scope.DeclInitsMembership | src/rules/require-usememo/index.ts:149-152 | an expression is among a declaration's initializers iff some declarator's init is that expression |
| Scope.StmtInitsMembership | src/rules/require-usememo/index.ts:145-152 | an initializer is scanned iff it is the init of a declarator of a VariableDeclaration standing directly in the statement list |
| Scope.StmtInitsConcat | src/rules/require-usememo/index.ts:145 | the scan of `a + b` is the scan of `a` followed by the scan of `b` |
| Scope.OtherStatementAddsNothing | src/rules/require-usememo/index.ts:147 | a statement other than a VariableDeclaration adds nothing, so declarations nested inside it are not seen |
| Scope.FilterMembership | src/rules/require-usememo/index.ts:151-152 | an initializer survives the test iff it was scanned and passes it |
| Scope.DirectInitScanned | src/rules/require-usecallback/index.ts:62-67 | the present init of any declarator of a direct VariableDeclaration is scanned |
| RequireUseMemo.HookListCoveredByPrefix | src/rules/require-usememo/index.ts:36-48 | the explicit list of hook names adds nothing to the `use` prefix test |
| RequireUseMemo.IsHookCallName | src/rules/require-usememo/index.ts:36-46 | the hook-name exclusion; specified by RequireUseMemo.HookListCoveredByPrefix: it is the `use` prefix test |
| RequireUseMemo.ShouldBeMemoized | src/rules/require-usememo/index.ts:26-74 | shouldBeMemoized; specified by RequireUseMemo.EligibleKinds: false for a missing node, and the kinds it accepts |
| RequireUseMemo.IsUseMemoWrapped | src/rules/require-usememo/index.ts:79-85 | isUseMemoWrapped; specified by RequireUseMemo.UseMemoWrappedOnlyByIdentifier |
| RequireUseMemo.Eligible | src/rules/require-usememo/index.ts:151-152 | the visitor's test on a present initializer; specified by RequireUseMemo.EligibleKinds |
| RequireUseMemo.EligibleKinds | src/rules/require-usememo/index.ts:26-74 | an initializer is eligible iff it is a call (but not of an identifier starting with `use`, equal to `console` or starting with `console.`, and not a member call on `console`), an object or array literal, or a JSX element or fragment. Function literals, literals and everything else are not |
| RequireUseMemo.UseMemoWrappedOnlyByIdentifier | src/rules/require-usememo/index.ts:79-85 | isUseMemoWrapped holds exactly for a call whose callee is the identifier `useMemo`; `React.useMemo(...)` is not wrapped |
| RequireUseMemo.UseMemoCallNeverEligible | src/rules/require-usememo/index.ts:79-85 | a `useMemo(...)` initializer is never reported |
| RequireUseMemo.BuildUseMemoWrapper | src/rules/require-usememo/index.ts:90-100 | the hook is `useMemo`; the text unwraps from `useMemo(() => ` ... `, [])` to the original text, in parentheses exactly for an object literal; the original occurs in it verbatim |
| RequireUseMemo.Fix | src/rules/require-usememo/index.ts:157-164 | the fix of one report; specified by RequireUseMemo.ReportShape and RequireUseMemo.NamedImportFixOutput |
| RequireUseMemo.MemoReport | src/rules/require-usememo/index.ts:154-178 | one report; specified by RequireUseMemo.ReportShape |
| RequireUseMemo.Visit | src/rules/require-usememo/index.ts:125-181 | the visitor makes exactly one report per eligible scanned initializer, in document order: report k is the memo report of eligible initializer k |
| RequireUseMemo.VisitStatements | src/rules/require-usememo/index.ts:145-180 | the loop over the body's statements returns the reports of the eligible initializers of all its VariableDeclarations, in order |
| RequireUseMemo.VisitDeclarations | src/rules/require-usememo/index.ts:149-179 | the loop over one declaration returns one report per present eligible initializer, in order |
| RequireUseMemo.ReportedExactly | src/rules/require-usememo/index.ts:130-152 | an initializer is reported iff the function passes the name gate, has a block body, the initializer is the init of a declarator of a direct VariableDeclaration, and it is eligible |
| RequireUseMemo.ReportsInDocumentOrder | src/rules/require-usememo/index.ts:145-149 | splitting the body into two runs of statements splits the reported initializers the same way |
| RequireUseMemo.ReportShape | src/rules/require-usememo/index.ts:154-178 | a report is for the initializer, with message `useMemo`. Its fix is the replacement by the wrapper followed by ensureReactImport's edits for `useMemo` (one or two edits). Its single suggestion carries the same edits |
| RequireUseMemo.NamedImportFixOutput | src/rules/require-usememo/index.ts:157-164 | with a react import that does not name `useMemo`, ending before the initializer: the fixed text has `, useMemo` after the last named specifier and the initializer replaced by its wrapper |
| RequireUseCallback.EligibleKinds | src/rules/require-usecallback/index.ts:68-69 | an initializer is eligible iff it is an arrow function or a function expression; the `useCallback(...)` test never excludes one |
| RequireUseCallback.Eligible | src/rules/require-usecallback/index.ts:68-69 | the visitor's test on a present initializer; specified by RequireUseCallback.EligibleKinds |
| RequireUseCallback.Fix | src/rules/require-usecallback/index.ts:74-85 | the fix of one report; specified by RequireUseCallback.ReportShape and RequireUseCallback.NoImportFixOutput |
| RequireUseCallback.CallbackReport | src/rules/require-usecallback/index.ts:71-104 | one report; specified by RequireUseCallback.ReportShape |
| RequireUseCallback.Visit | src/rules/require-usecallback/index.ts:43-107 | the visitor makes exactly one report per scanned new-function initializer, in document order: report k is the callback report of eligible initializer k |
| RequireUseCallback.VisitStatements | src/rules/require-usecallback/index.ts:62-106 | the loop over the body's statements returns the reports of the eligible initializers of all its VariableDeclarations, in order |
| RequireUseCallback.VisitDeclarations | src/rules/require-usecallback/index.ts:66-105 | the loop over one declaration returns one report per present eligible initializer, in order |
| RequireUseCallback.ReportedExactly | src/rules/require-usecallback/index.ts:48-69 | an initializer is reported iff the function passes the name gate, has a block body, the initializer is the init of a declarator of a direct VariableDeclaration, and it is an arrow function or function expression |
| RequireUseCallback.ReportsInDocumentOrder | src/rules/require-usecallback/index.ts:62-66 | splitting the body into two runs of statements splits the reported initializers the same way |
| RequireUseCallback.ReportShape | src/rules/require-usecallback/index.ts:71-104 | a report is for the initializer, with message `useCallback`. Its fix is the replacement by the wrapper followed by ensureReactImport's edits for `useCallback`. Its single suggestion carries the same edits |
| RequireUseCallback.NoImportFixOutput | src/rules/require-usecallback/index.ts:74-85 | in a file without a react import: the fixed text has `import { useCallback } from 'react';` on its own line at the top (after a leading newline, indented like the line after it), and the function text wrapped as `useCallback(` + original + `, [])` |
| RequireUseCallback.NoImportAfterNewline | src/rules/require-usecallback/index.ts:74-85 | the leading-newline case of the output above |
| RequireUseCallback.NoImportAtStart | src/rules/require-usecallback/index.ts:74-85 | the no-leading-newline case of the output above |
| BothRules.RulesNeverShareAnInit | src/rules/require-usememo/index.ts:65-73 | no initializer is reported by both rules: the memo rule never takes a function literal |
| BothRules.MemoRewriteNotReported | src/rules/require-usememo/index.ts:90-100 | the memo wrapper text begins with `useMemo(`, and a call of the identifier `useMemo` is reported by neither rule |
| BothRules.CallbackRewriteNotReported | src/rules/utils.ts:56-62 | the callback wrapper text begins with `useCallback(`, and a call of the identifier `useCallback` is reported by neither rule |

## Left out

- The rule modules' `meta` objects (type, docs, messages, schema) are static data and are not modelled. The message id is kept in each report.
- `context.report` is not modelled as a call into the host; the visitors return the reports in the order the source makes them.
- `context.sourceCode ?? context.getSourceCode()` (the ESLint 8/9 compatibility) is not modelled: the source text is a parameter.
- Parsing into ESTree and the parent-pointer decoration (`src/rules/require-usememo/type.ts`) are not modelled. The tree is an input, and a function node carries its parent declarator's id explicitly.
- The host's merging of fixes from several reports in one file is not modelled. `ApplyFix` applies the edits of a single report only.
- Plugin wiring (`src/index.ts`, `src/rules/index.ts`, `src/flat-config.ts`, `src/legacy-config.ts`), build configuration and the test harness are static wiring and are not modelled.
- Dependency inference is not modelled: the code always writes the empty list `[]`, and the model writes that literal.
- The regular expressions of the naming conventions are written as explicit character tests. ESLint's identifier names are modelled as strings of characters without Unicode properties.
- Utils.ImportLayout: the end-to-end lemmas (`Utils.ReplaceWithImportApplies`, `Utils.NamedImportFixApplies`, `RequireUseMemo.NamedImportFixOutput`, `RequireUseCallback.NoImportFixOutput`) assume what a parsed file guarantees. The import declaration and its specifiers lie inside the text and do not overlap the initializer. A leading newline is never part of an initializer.
- RequireUseMemo.NamedImportFixOutput: states the fixed text only for the named-specifier branch with the import before the initializer. The other branches follow from Utils.ReplaceWithImportApplies and the per-branch lemmas of Utils.
- RequireUseCallback.NoImportFixOutput: states the fixed text only for a file without a react import. The other cases follow from Utils.ReplaceWithImportApplies and the per-branch lemmas of Utils.
