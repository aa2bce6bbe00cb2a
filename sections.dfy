/**
 * The section reader of the README editor: the text of a template file
 * between the line `<!-- start NAME -->` and the line `<!-- end NAME -->`.
 *
 * A file is the list of its lines as `readlines()` returns them (each line
 * keeps its newline) or `None` when the file does not exist.
 */
module Sections {
  import opened Wrappers
  import opened Markers

  /** The lines joined back into text (a line already ends in its newline). */
  function Concat(lines: seq<string>): string
    decreases |lines|
  {
    if lines == [] then "" else Concat(lines[..|lines| - 1]) + lines[|lines| - 1]
  }

  /** Index of the first `kw` marker line for `name`, or `|lines|` when there is none. */
  function FirstMarker(lines: seq<string>, kw: Keyword, name: string): (k: nat)
    ensures k <= |lines|
    ensures forall j :: 0 <= j < k ==> !IsMarker(lines[j], kw, name)
    ensures k < |lines| ==> IsMarker(lines[k], kw, name)
    decreases |lines|
  {
    if lines == [] then 0
    else if IsMarker(lines[0], kw, name) then 0
    else 1 + FirstMarker(lines[1..], kw, name)
  }

  /**
   * The section `name` of `file`: the lines strictly after the first start
   * marker and strictly before the first end marker (or the end of the file),
   * provided the start marker comes first; otherwise nothing.
   */
  function Extract(file: Option<seq<string>>, name: string): string {
    match file
    case None => ""
    case Some(lines) =>
      var e := FirstMarker(lines, End, name);
      var s := FirstMarker(lines, Start, name);
      if s < e then Concat(lines[s + 1..e]) else ""
  }

  /**
   * The reader itself: one pass over the lines with an inside/outside flag.
   * Each line is first checked as an end marker (which stops the pass), then
   * appended when inside, then checked as a start marker.
   */
  method ReadSection(sectionName: string, file: Option<seq<string>>) returns (section: string)
    ensures section == Extract(file, sectionName)
  {
    section := "";
    var isSection := false;
    if file.Some? {
      var lines := file.value;
      ghost var s := FirstMarker(lines, Start, sectionName);
      var i := 0;
      while i < |lines|
        invariant 0 <= i <= |lines|
        invariant i <= FirstMarker(lines, End, sectionName)
        invariant isSection <==> s < i
        invariant s < i ==> section == Concat(lines[s + 1..i])
        invariant s >= i ==> section == ""
      {
        var line := lines[i];
        if IsMarker(line, End, sectionName) {
          break;
        }
        if isSection {
          ConcatSnoc(lines, s + 1, i);
          section := section + line;
        }
        if IsMarker(line, Start, sectionName) {
          isSection := true;
        }
        i := i + 1;
      }
      assert i == FirstMarker(lines, End, sectionName);
    }
  }

  lemma FirstMarkerIs(lines: seq<string>, kw: Keyword, name: string, k: nat)
    requires k <= |lines|
    requires forall j :: 0 <= j < k ==> !IsMarker(lines[j], kw, name)
    requires k < |lines| ==> IsMarker(lines[k], kw, name)
    ensures FirstMarker(lines, kw, name) == k
  {
  }

  lemma {:induction false} ConcatAppend(a: seq<string>, b: seq<string>)
    ensures Concat(a + b) == Concat(a) + Concat(b)
    decreases |b|
  {
    if b == [] {
      assert a + b == a;
    } else {
      var b' := b[..|b| - 1];
      assert (a + b)[..|a + b| - 1] == a + b';
      assert (a + b)[|a + b| - 1] == b[|b| - 1];
      ConcatAppend(a, b');
      AppendAssoc(Concat(a), Concat(b'), b[|b| - 1]);
    }
  }

  /** Text of a slice extended by one line. */
  lemma ConcatSnoc(lines: seq<string>, i: nat, j: nat)
    requires i <= j < |lines|
    ensures Concat(lines[i..j + 1]) == Concat(lines[i..j]) + lines[j]
  {
    assert lines[i..j + 1][..j - i] == lines[i..j];
  }

  /** Text of a slice cut at one of its lines. */
  lemma ConcatSplit(lines: seq<string>, i: nat, k: nat, e: nat)
    requires i <= k < e <= |lines|
    ensures Concat(lines[i..e]) == Concat(lines[i..k]) + lines[k] + Concat(lines[k + 1..e])
  {
    assert lines[i..e] == lines[i..k + 1] + lines[k + 1..e];
    ConcatAppend(lines[i..k + 1], lines[k + 1..e]);
    ConcatSnoc(lines, i, k);
  }

  /** A missing file has empty sections. */
  lemma MissingFileIsEmpty(name: string)
    ensures Extract(None, name) == ""
  {
  }

  /** Without a start marker anywhere, the section is empty. */
  lemma UnopenedSectionIsEmpty(lines: seq<string>, name: string)
    requires forall j :: 0 <= j < |lines| ==> !IsMarker(lines[j], Start, name)
    ensures Extract(Some(lines), name) == ""
  {
  }

  /**
   * An end marker that comes before every start marker stops the reader
   * with nothing read, whatever follows it.
   */
  lemma CloseBeforeOpenIsEmpty(pre: seq<string>, close: string, post: seq<string>, name: string)
    requires forall j :: 0 <= j < |pre| ==> !IsMarker(pre[j], Start, name)
    requires IsMarker(close, End, name)
    ensures Extract(Some(pre + [close] + post), name) == ""
  {
    var lines := pre + [close] + post;
    StartAndEndExclusive(close, name);
    assert lines[|pre|] == close;
    assert FirstMarker(lines, End, name) <= |pre|;
    assert forall j :: 0 <= j <= |pre| ==> !IsMarker(lines[j], Start, name);
  }

  /** Regrouping a concatenation, kept out of line so that the proofs using it stay small. */
  lemma AppendAssoc<T>(a: seq<T>, b: seq<T>, c: seq<T>)
    ensures a + b + c == a + (b + c)
  {
  }

  /** The first marker of `a + b` is in `b` when `a` holds none. */
  lemma FirstMarkerAfter(a: seq<string>, b: seq<string>, kw: Keyword, name: string)
    requires forall j :: 0 <= j < |a| ==> !IsMarker(a[j], kw, name)
    ensures FirstMarker(a + b, kw, name) == |a| + FirstMarker(b, kw, name)
  {
    var k := FirstMarker(b, kw, name);
    var ab := a + b;
    forall j | 0 <= j < |a| + k ensures !IsMarker(ab[j], kw, name) {
      if j >= |a| { assert ab[j] == b[j - |a|]; }
    }
    if k < |b| { assert ab[|a| + k] == b[k]; }
    FirstMarkerIs(ab, kw, name, |a| + k);
  }

  /**
   * The section is exactly the text of the lines between the first start
   * marker and the next end marker (or the end of the file). The lines
   * before the start marker hold no marker of the section; the lines of the
   * body hold no end marker, but may hold further start markers, which are
   * then part of the text. Neither delimiter line is part of the result.
   */
  lemma SectionIsBody(pre: seq<string>, open: string, body: seq<string>, rest: seq<string>, name: string)
    requires forall j :: 0 <= j < |pre| ==> !IsMarker(pre[j], Start, name) && !IsMarker(pre[j], End, name)
    requires IsMarker(open, Start, name)
    requires forall j :: 0 <= j < |body| ==> !IsMarker(body[j], End, name)
    requires rest == [] || IsMarker(rest[0], End, name)
    ensures Extract(Some(pre + [open] + body + rest), name) == Concat(body)
  {
    var lines := pre + [open] + body + rest;
    AppendAssoc(pre + [open], body, rest);
    SectionStart(pre, open, body + rest, name);
    SectionEnd(pre, open, body, rest, name);
    assert lines[|pre| + 1..|pre| + 1 + |body|] == body;
  }

  /** The first start marker of `pre + [open] + after` is `open`. */
  lemma SectionStart(pre: seq<string>, open: string, after: seq<string>, name: string)
    requires forall j :: 0 <= j < |pre| ==> !IsMarker(pre[j], Start, name)
    requires IsMarker(open, Start, name)
    ensures FirstMarker(pre + [open] + after, Start, name) == |pre|
  {
    AppendAssoc(pre, [open], after);
    FirstMarkerIs([open] + after, Start, name, 0);
    FirstMarkerAfter(pre, [open] + after, Start, name);
  }

  /** The first end marker of `pre + [open] + body + rest` is the first line of `rest`. */
  lemma SectionEnd(pre: seq<string>, open: string, body: seq<string>, rest: seq<string>, name: string)
    requires forall j :: 0 <= j < |pre| ==> !IsMarker(pre[j], End, name)
    requires IsMarker(open, Start, name)
    requires forall j :: 0 <= j < |body| ==> !IsMarker(body[j], End, name)
    requires rest == [] || IsMarker(rest[0], End, name)
    ensures FirstMarker(pre + [open] + (body + rest), End, name) == |pre| + 1 + |body|
  {
    StartAndEndExclusive(open, name);
    assert rest != [] ==> FirstMarker(rest, End, name) == 0;
    FirstMarkerAfter(body, rest, End, name);
    AppendAssoc([open], body, rest);
    FirstMarkerAfter([open], body + rest, End, name);
    AppendAssoc(pre, [open], body + rest);
    FirstMarkerAfter(pre, [open] + (body + rest), End, name);
  }

  /**
   * Inside an open section a further start marker line is ordinary text: it
   * stands in the result between the text before it and the text after it.
   */
  lemma ReopenIsText(lines: seq<string>, name: string, k: nat)
    requires FirstMarker(lines, Start, name) < k < FirstMarker(lines, End, name)
    ensures Extract(Some(lines), name)
         == Concat(lines[FirstMarker(lines, Start, name) + 1..k]) + lines[k] + Concat(lines[k + 1..FirstMarker(lines, End, name)])
  {
    var s := FirstMarker(lines, Start, name);
    var e := FirstMarker(lines, End, name);
    assert Extract(Some(lines), name) == Concat(lines[s + 1..e]);
    ConcatSplit(lines, s + 1, k, e);
  }

  /** Nothing after an end marker line of the section is ever read. */
  lemma IgnoresLinesAfterClose(lines: seq<string>, k: nat, more: seq<string>, name: string)
    requires k < |lines| && IsMarker(lines[k], End, name)
    ensures Extract(Some(lines[..k + 1] + more), name) == Extract(Some(lines), name)
  {
    var other := lines[..k + 1] + more;
    assert forall j :: 0 <= j <= k ==> other[j] == lines[j];
    var e := FirstMarker(lines, End, name);
    FirstMarkerAgrees(lines, other, End, name, k + 1);
    FirstMarkerAgrees(lines, other, Start, name, e);
    SameSection(lines, other, name);
  }

  /** Files whose markers stand at the same places and that agree up to the end marker have the same section. */
  lemma SameSection(a: seq<string>, b: seq<string>, name: string)
    requires FirstMarker(a, End, name) == FirstMarker(b, End, name)
    requires FirstMarker(a, Start, name) < FirstMarker(a, End, name) ==>
               FirstMarker(b, Start, name) == FirstMarker(a, Start, name)
    requires FirstMarker(a, Start, name) >= FirstMarker(a, End, name) ==>
               FirstMarker(b, Start, name) >= FirstMarker(a, End, name)
    requires forall j :: 0 <= j < FirstMarker(a, End, name) ==> a[j] == b[j]
    ensures Extract(Some(a), name) == Extract(Some(b), name)
  {
    var s := FirstMarker(a, Start, name);
    var e := FirstMarker(a, End, name);
    if s < e {
      assert a[s + 1..e] == b[s + 1..e];
    }
  }

  /** Two files that agree on their first `k` lines agree on where the first marker is, as far as line `k`. */
  lemma FirstMarkerAgrees(lines: seq<string>, other: seq<string>, kw: Keyword, name: string, k: nat)
    requires k <= |lines| && k <= |other|
    requires forall j :: 0 <= j < k ==> other[j] == lines[j]
    ensures FirstMarker(lines, kw, name) < k ==> FirstMarker(other, kw, name) == FirstMarker(lines, kw, name)
    ensures FirstMarker(lines, kw, name) >= k ==> FirstMarker(other, kw, name) >= k
  {
    var f := FirstMarker(lines, kw, name);
    if f < k {
      FirstMarkerIs(other, kw, name, f);
    } else {
      assert forall j :: 0 <= j < k ==> !IsMarker(other[j], kw, name);
    }
  }
}
