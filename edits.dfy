/**
 * Text edits as ESLint's fixer produces them, the report a rule hands to the host,
 * and the host's application of one report's fix to the source text (sort the
 * edits by range, refuse overlapping ones, splice them in).
 */
module Edits {
  import opened Ast

  datatype Edit =
    | Replace(range: Range, text: string)            // fixer.replaceText(node, text)
    | InsertAfterRange(range: Range, text: string)   // fixer.insertTextAfterRange(range, text)
    | InsertAfterNode(node: Range, text: string)     // fixer.insertTextAfter(node, text)
  {
    /** The offsets the edit replaces: an insertion replaces the empty range at the end. */
    function Start(): nat {
      match this
      case Replace(r, _) => r.start
      case InsertAfterRange(r, _) => r.end
      case InsertAfterNode(r, _) => r.end
    }

    function End(): nat {
      match this
      case Replace(r, _) => r.end
      case InsertAfterRange(r, _) => r.end
      case InsertAfterNode(r, _) => r.end
    }

    function Text(): string {
      match this
      case Replace(_, t) => t
      case InsertAfterRange(_, t) => t
      case InsertAfterNode(_, t) => t
    }
  }

  datatype Suggestion = Suggestion(messageId: string, fix: seq<Edit>)

  /** One `context.report` call: the reported node, its message, its automatic fix and
      its suggestions. */
  datatype Report = Report(node: Expr, messageId: string, fix: seq<Edit>, suggest: seq<Suggestion>)

  /** The host's order on edits: by start offset, then by end offset. */
  predicate Precedes(a: Edit, b: Edit) {
    a.Start() < b.Start() || (a.Start() == b.Start() && a.End() <= b.End())
  }

  predicate SortedByRange(s: seq<Edit>) {
    forall i :: 0 <= i < |s| - 1 ==> Precedes(s[i], s[i + 1])
  }

  function InsertSorted(e: Edit, s: seq<Edit>): seq<Edit> {
    if s == [] then [e]
    else if Precedes(e, s[0]) then [e] + s
    else [s[0]] + InsertSorted(e, s[1..])
  }

  /** The host sorts a fix's edits before merging them. */
  function SortFix(s: seq<Edit>): seq<Edit> {
    if s == [] then [] else InsertSorted(s[0], SortFix(s[1..]))
  }

  lemma {:induction false} InsertSortedSorted(e: Edit, s: seq<Edit>)
    requires SortedByRange(s)
    ensures SortedByRange(InsertSorted(e, s))
    ensures var r := InsertSorted(e, s); |r| == |s| + 1 && (r[0] == e || (s != [] && r[0] == s[0]))
  {
    if s == [] {
    } else if Precedes(e, s[0]) {
      var r := [e] + s;
      assert forall i :: 1 <= i < |r| ==> r[i] == s[i - 1];
    } else {
      var rest := InsertSorted(e, s[1..]);
      var r := [s[0]] + rest;
      assert SortedByRange(s[1..]) by {
        assert forall i :: 0 <= i < |s| - 1 ==> s[1..][i] == s[i + 1];
      }
      InsertSortedSorted(e, s[1..]);
      assert Precedes(s[0], rest[0]);
      assert forall i :: 1 <= i < |r| ==> r[i] == rest[i - 1];
    }
  }

  lemma {:induction false} InsertSortedPermutes(e: Edit, s: seq<Edit>)
    ensures multiset(InsertSorted(e, s)) == multiset(s) + multiset{e}
  {
    if s != [] && !Precedes(e, s[0]) {
      InsertSortedPermutes(e, s[1..]);
      assert s == [s[0]] + s[1..];
      assert multiset([s[0]] + InsertSorted(e, s[1..]))
          == multiset{s[0]} + multiset(InsertSorted(e, s[1..]));
    }
  }

  /** Sorting orders the edits by range and keeps every one of them. */
  lemma {:induction false} SortFixCorrect(s: seq<Edit>)
    ensures SortedByRange(SortFix(s))
    ensures multiset(SortFix(s)) == multiset(s)
  {
    if s != [] {
      assert s == [s[0]] + s[1..];
      SortFixCorrect(s[1..]);
      InsertSortedSorted(s[0], SortFix(s[1..]));
      InsertSortedPermutes(s[0], SortFix(s[1..]));
    }
  }

  /** Splice sorted edits into `src` from offset `pos` on; `None` when an edit starts
      before the previous one ended (the host rejects overlapping fixes) or lies outside
      the text. */
  function Splice(src: string, edits: seq<Edit>, pos: nat): Option<string>
    decreases |edits|
  {
    if edits == [] then
      if pos <= |src| then Some(src[pos..]) else None
    else
      var e := edits[0];
      if pos <= e.Start() <= e.End() <= |src| then
        match Splice(src, edits[1..], e.End())
        case Some(rest) => Some(src[pos..e.Start()] + e.Text() + rest)
        case None => None
      else None
  }

  /** The text after the host applies one report's fix. */
  function ApplyFix(src: string, fix: seq<Edit>): Option<string> {
    Splice(src, SortFix(fix), 0)
  }

  /** Two edits, the first ending no later than the second starts (and not two
      insertions at one offset), are spliced in document order whatever their order
      in the fix. */
  lemma ApplyTwo(src: string, a: Edit, b: Edit)
    requires a.Start() <= a.End() <= b.Start() <= b.End() <= |src|
    requires a.Start() < b.Start() || a.End() < b.End()
    ensures ApplyFix(src, [a, b]) == ApplyFix(src, [b, a])
    ensures ApplyFix(src, [a, b]) ==
      Some(src[..a.Start()] + a.Text() + src[a.End()..b.Start()] + b.Text() + src[b.End()..])
  {
    assert [a][1..] == [] && [b][1..] == [];
    assert [a, b][1..] == [b] && [b, a][1..] == [a];
    assert SortFix([]) == [] && InsertSorted(a, []) == [a] && InsertSorted(b, []) == [b];
    assert SortFix([a]) == [a] && SortFix([b]) == [b];
    assert Precedes(a, b) && !Precedes(b, a);
    assert SortFix([a, b]) == [a, b];
    assert SortFix([b, a]) == [a, b];
    assert [a, b][1..][1..] == [];
    assert Splice(src, [], b.End()) == Some(src[b.End()..]);
    assert Splice(src, [b], a.End()) == Some(src[a.End()..b.Start()] + b.Text() + src[b.End()..]);
    assert src[0..a.Start()] == src[..a.Start()];
    assert Splice(src, [a, b], 0) ==
      Some(src[..a.Start()] + a.Text() + (src[a.End()..b.Start()] + b.Text() + src[b.End()..]));
    assert src[..a.Start()] + a.Text() + (src[a.End()..b.Start()] + b.Text() + src[b.End()..]) ==
      src[..a.Start()] + a.Text() + src[a.End()..b.Start()] + b.Text() + src[b.End()..];
  }

  /** A single edit is spliced straight into the text. */
  lemma ApplyOne(src: string, a: Edit)
    requires a.Start() <= a.End() <= |src|
    ensures ApplyFix(src, [a]) == Some(src[..a.Start()] + a.Text() + src[a.End()..])
  {
    assert [a][1..] == [];
    assert SortFix([a]) == [a];
    assert Splice(src, [], a.End()) == Some(src[a.End()..]);
    assert src[0..a.Start()] == src[..a.Start()];
  }
}
