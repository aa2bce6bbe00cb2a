/**
 * Recognition of the section delimiters of a README template:
 * `<!--\s*start\s+NAME\s*-->` and `<!--\s*end\s+NAME\s*-->`, matched at the
 * start of a line, case-insensitively, with any text allowed after `-->`.
 *
 * A delimiter pattern is a list of tokens: literals, compared up to case,
 * and whitespace runs (`\s*`, or `\s+` when at least one character is
 * needed). `Scan` decides a line by reading every run greedily; `Matches`
 * is the pattern read as a grammar, which may split the line anywhere.
 */
module Markers {
  import opened Text

  datatype Token = Lit(text: string) | Spaces(atLeastOne: bool)

  datatype Keyword = Start | End

  function KeywordText(kw: Keyword): string {
    match kw
    case Start => "start"
    case End => "end"
  }

  /** `<!--\s*KEYWORD\s+NAME\s*-->` */
  function MarkerPattern(kw: Keyword, name: string): seq<Token> {
    [Lit("<!--"), Spaces(false), Lit(KeywordText(kw)), Spaces(true), Lit(name), Spaces(false), Lit("-->")]
  }

  /** The deterministic, greedy reading of `toks` at the start of `s`. */
  predicate Scan(s: string, toks: seq<Token>)
    decreases |toks|
  {
    if toks == [] then true
    else match toks[0]
      case Lit(p) => StartsWithFold(s, p) && Scan(s[|p|..], toks[1..])
      case Spaces(plus) =>
        var n := SpaceRun(s);
        (!plus || n > 0) && Scan(s[n..], toks[1..])
  }

  /** Some split of a prefix of `s` matches `toks` token by token. */
  ghost predicate Matches(s: string, toks: seq<Token>)
    decreases |toks|
  {
    if toks == [] then true
    else match toks[0]
      case Lit(p) => StartsWithFold(s, p) && Matches(s[|p|..], toks[1..])
      case Spaces(plus) =>
        exists k :: 0 <= k <= |s| && AllSpace(s[..k]) && (!plus || k > 0) && Matches(s[k..], toks[1..])
  }

  /** Every whitespace run is followed by a literal that begins with a non-space. */
  predicate WellFormed(toks: seq<Token>) {
    forall i :: 0 <= i < |toks| && toks[i].Spaces? ==>
      i + 1 < |toks| && toks[i + 1].Lit? && |toks[i + 1].text| > 0 && !IsSpace(toks[i + 1].text[0])
  }

  /** The delimiter test of the section reader. */
  predicate IsMarker(line: string, kw: Keyword, name: string) {
    Scan(line, MarkerPattern(kw, name))
  }

  /** A whitespace run followed by a non-space (or the end) is the greedy run. */
  lemma {:induction false} SpaceRunIsUnique(s: string, k: nat)
    requires k <= |s| && AllSpace(s[..k])
    requires k < |s| ==> !IsSpace(s[k])
    ensures SpaceRun(s) == k
    decreases k
  {
    if k > 0 {
      assert s[..k][0] == s[0];
      var t := s[1..][..k - 1];
      assert AllSpace(t) by {
        forall i | 0 <= i < |t| ensures IsSpace(t[i]) {
          assert t[i] == s[..k][i + 1];
        }
      }
      assert k - 1 < |s[1..]| ==> s[1..][k - 1] == s[k];
      SpaceRunIsUnique(s[1..], k - 1);
    }
  }

  /** A run that stops before the end of `s` is not changed by text appended to `s`. */
  lemma SpaceRunExtends(s: string, tail: string)
    requires SpaceRun(s) < |s|
    ensures SpaceRun(s + tail) == SpaceRun(s)
  {
    var n := SpaceRun(s);
    assert (s + tail)[..n] == s[..n];
    assert (s + tail)[n] == s[n];
    SpaceRunIsUnique(s + tail, n);
  }

  /** The tokens after the first one are well formed too. */
  lemma WellFormedTail(toks: seq<Token>)
    requires toks != [] && WellFormed(toks)
    ensures WellFormed(toks[1..])
  {
    forall i | 0 <= i < |toks[1..]| && toks[1..][i].Spaces?
      ensures i + 1 < |toks[1..]| && toks[1..][i + 1].Lit?
    {
      assert toks[i + 1].Spaces?;
    }
  }

  /** Every line the greedy scan accepts is matched by the pattern. */
  lemma {:induction false} ScanIsSound(s: string, toks: seq<Token>)
    requires Scan(s, toks)
    ensures Matches(s, toks)
    decreases |toks|
  {
    if toks != [] {
      match toks[0]
      case Lit(p) =>
        ScanIsSound(s[|p|..], toks[1..]);
      case Spaces(plus) =>
        var n := SpaceRun(s);
        ScanIsSound(s[n..], toks[1..]);
        assert 0 <= n <= |s| && AllSpace(s[..n]) && (!plus || n > 0) && Matches(s[n..], toks[1..]);
    }
  }

  /**
   * Conversely, when every run is followed by a literal that cannot begin
   * with whitespace, each match of the pattern is the greedy one.
   */
  lemma {:induction false} ScanIsComplete(s: string, toks: seq<Token>)
    requires WellFormed(toks)
    requires Matches(s, toks)
    ensures Scan(s, toks)
    decreases |toks|
  {
    if toks != [] {
      WellFormedTail(toks);
      match toks[0]
      case Lit(p) =>
        ScanIsComplete(s[|p|..], toks[1..]);
      case Spaces(plus) =>
        var k :| 0 <= k <= |s| && AllSpace(s[..k]) && (!plus || k > 0) && Matches(s[k..], toks[1..]);
        var q := toks[1].text;
        assert toks[1] == Lit(q);
        assert StartsWithFold(s[k..], q);
        if k < |s| {
          assert s[k..][..|q|][0] == s[k];
          assert Lower(s[k]) == Lower(q[0]);
        }
        SpaceRunIsUnique(s, k);
        ScanIsComplete(s[k..], toks[1..]);
    }
  }

  /**
   * For a section name that does not begin with whitespace (all the names
   * the editor asks for), the marker test decides exactly the pattern.
   */
  lemma MarkerIffPattern(line: string, kw: Keyword, name: string)
    requires |name| > 0 && !IsSpace(name[0])
    ensures IsMarker(line, kw, name) <==> Matches(line, MarkerPattern(kw, name))
  {
    var toks := MarkerPattern(kw, name);
    PatternWellFormed(kw, name);
    if IsMarker(line, kw, name) {
      ScanIsSound(line, toks);
    }
    if Matches(line, toks) {
      ScanIsComplete(line, toks);
    }
  }

  /**
   * The marker pattern ends in `-->`, and the greedy reading of it is
   * complete exactly when the section name is non-empty and does not begin
   * with whitespace (after `\s+` the greedy reading must stop at the name).
   */
  lemma PatternWellFormed(kw: Keyword, name: string)
    ensures EndsInText(MarkerPattern(kw, name))
    ensures WellFormed(MarkerPattern(kw, name)) <==> |name| > 0 && !IsSpace(name[0])
  {
    var toks := MarkerPattern(kw, name);
    if |name| > 0 && !IsSpace(name[0]) {
      forall i | 0 <= i < |toks| && toks[i].Spaces?
        ensures i + 1 < |toks| && toks[i + 1].Lit? && |toks[i + 1].text| > 0 && !IsSpace(toks[i + 1].text[0])
      {
        assert i == 1 || i == 3 || i == 5;
      }
    }
    assert toks[3].Spaces? && toks[4] == Lit(name);
  }

  /** The pattern is empty or ends in a non-empty literal (as `-->` ends a marker). */
  predicate EndsInText(toks: seq<Token>) {
    toks == [] || (toks[|toks| - 1].Lit? && |toks[|toks| - 1].text| > 0)
  }

  /** A pattern that ends in text accepts no empty string. */
  lemma {:induction false} ScanNeedsText(s: string, toks: seq<Token>)
    requires toks != [] && EndsInText(toks)
    requires Scan(s, toks)
    ensures |s| > 0
    decreases |toks|
  {
    match toks[0]
    case Lit(p) =>
      if |p| == 0 {
        assert toks[1..][|toks| - 2] == toks[|toks| - 1];
        ScanNeedsText(s[|p|..], toks[1..]);
      }
    case Spaces(plus) =>
      assert toks[1..][|toks| - 2] == toks[|toks| - 1];
      ScanNeedsText(s[SpaceRun(s)..], toks[1..]);
  }

  /** Whatever follows the last token does not matter: the match is a prefix match. */
  lemma {:induction false} ScanIgnoresSuffix(s: string, toks: seq<Token>, tail: string)
    requires EndsInText(toks)
    requires Scan(s, toks)
    ensures Scan(s + tail, toks)
    decreases |toks|, 1
  {
    if toks != [] {
      assert EndsInText(toks[1..]) by {
        if |toks| > 1 {
          assert toks[1..][|toks| - 2] == toks[|toks| - 1];
        }
      }
      if toks[0].Lit? {
        LiteralIgnoresSuffix(s, toks, tail);
      } else {
        SpacesIgnoreSuffix(s, toks, tail);
      }
    }
  }

  lemma {:induction false} LiteralIgnoresSuffix(s: string, toks: seq<Token>, tail: string)
    requires toks != [] && toks[0].Lit? && EndsInText(toks[1..])
    requires Scan(s, toks)
    ensures Scan(s + tail, toks)
    decreases |toks|, 0
  {
    var p := toks[0].text;
    assert (s + tail)[..|p|] == s[..|p|];
    assert (s + tail)[|p|..] == s[|p|..] + tail;
    ScanIgnoresSuffix(s[|p|..], toks[1..], tail);
  }

  lemma {:induction false} SpacesIgnoreSuffix(s: string, toks: seq<Token>, tail: string)
    requires toks != [] && toks[0].Spaces? && EndsInText(toks) && EndsInText(toks[1..])
    requires Scan(s, toks)
    ensures Scan(s + tail, toks)
    decreases |toks|, 0
  {
    var n := SpaceRun(s);
    ScanNeedsText(s[n..], toks[1..]);
    SpaceRunExtends(s, tail);
    assert (s + tail)[n..] == s[n..] + tail;
    ScanIgnoresSuffix(s[n..], toks[1..], tail);
  }

  /** Any text may follow `-->` on a marker line. */
  lemma MarkerIgnoresTrailingText(line: string, kw: Keyword, name: string, tail: string)
    requires IsMarker(line, kw, name)
    ensures IsMarker(line + tail, kw, name)
  {
    ScanIgnoresSuffix(line, MarkerPattern(kw, name), tail);
  }

  /** No line is both a start and an end marker of the same section. */
  lemma StartAndEndExclusive(line: string, name: string)
    ensures !(IsMarker(line, Start, name) && IsMarker(line, End, name))
  {
    if IsMarker(line, Start, name) {
      MarkerKeyword(line, Start, name);
      assert Lower(AfterOpen(line)[0]) == 's';
      if IsMarker(line, End, name) {
        MarkerKeyword(line, End, name);
        assert false;
      }
    }
  }

  /** What is left of a line once `<!--` and the whitespace after it are read. */
  function AfterOpen(line: string): string
    requires |line| >= 4
  {
    var r := line[4..];
    r[SpaceRun(r)..]
  }

  /** The keyword of a marker line stands right after `<!--` and its whitespace. */
  lemma MarkerKeyword(line: string, kw: Keyword, name: string)
    requires IsMarker(line, kw, name)
    ensures |line| >= 4 && StartsWithFold(AfterOpen(line), KeywordText(kw))
  {
    var toks := MarkerPattern(kw, name);
    assert toks[1..][0] == Spaces(false) && toks[1..][1..] == toks[2..];
    var r := line[4..];
    assert Scan(r, toks[1..]);
    var t := r[SpaceRun(r)..];
    assert Scan(t, toks[2..]);
    assert toks[2..][0] == Lit(KeywordText(kw));
  }

  /** Lower-casing the line changes no marker test: the match is case-insensitive. */
  lemma MarkerIgnoresCase(line: string, kw: Keyword, name: string)
    ensures IsMarker(LowerString(line), kw, name) <==> IsMarker(line, kw, name)
  {
    ScanIgnoresCase(line, MarkerPattern(kw, name));
  }

  lemma {:induction false} ScanIgnoresCase(s: string, toks: seq<Token>)
    ensures Scan(LowerString(s), toks) <==> Scan(s, toks)
    decreases |toks|
  {
    if toks != [] {
      var u := LowerString(s);
      match toks[0]
      case Lit(p) =>
        if |p| <= |s| {
          assert FoldEq(u[..|p|], p) <==> FoldEq(s[..|p|], p);
          LowerStringSuffix(s, |p|);
          ScanIgnoresCase(s[|p|..], toks[1..]);
        }
      case Spaces(plus) =>
        var n := SpaceRun(s);
        assert u[..n] == LowerString(s[..n]);
        SpaceRunIsUnique(u, n);
        LowerStringSuffix(s, n);
        ScanIgnoresCase(s[n..], toks[1..]);
    }
  }

  lemma LowerStringSuffix(s: string, k: nat)
    requires k <= |s|
    ensures LowerString(s)[k..] == LowerString(s[k..])
  {
  }
}
