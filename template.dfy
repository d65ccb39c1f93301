/**
 * Answers laid out the way the system prompt asks: a run of sections, each a `### `
 * heading line followed by free text. This module renders such a layout and shows that
 * `parse_gemini_response` reads a well-formed layout back (one-line headings, no newline
 * followed by a marker inside a section's text, and a newline ending every section's text
 * but the last): each entry receives the stripped text of the last section whose heading
 * selects it, and the fallback when no heading does.
 */
module Template {
  import opened Wrappers
  import opened Text
  import opened Scanner
  import opened Sections

  /** One section of an answer: the text of its heading line and the text under it. */
  datatype Section = Section(header: string, body: string)

  /** A heading line. */
  function Heading(header: string): string
  {
    "### " + header + "\n"
  }

  /** The sections written one after the other, each heading directly followed by its text. */
  function Render(secs: seq<Section>): string
    decreases |secs|
  {
    if secs == [] then [] else Heading(secs[0].header) + secs[0].body + Render(secs[1..])
  }

  /** A text ending in a newline, without that newline; any other text unchanged. */
  function DropFinalNewline(b: string): string
  {
    if b != [] && b[|b| - 1] == '\n' then b[..|b| - 1] else b
  }

  /**
   * A layout the scan reads back section by section: every heading is one line, no
   * section text holds a newline followed by a marker, and every section but the last
   * ends its text with a newline, so the next heading starts a line.
   */
  predicate WellFormed(secs: seq<Section>)
  {
    forall i :: 0 <= i < |secs| ==>
      '\n' !in secs[i].header && NoBreak(secs[i].body)
      && (i + 1 < |secs| ==> secs[i].body != [] && secs[i].body[|secs[i].body| - 1] == '\n')
  }

  /** The pairs the scan is expected to return for a layout. */
  function Expected(secs: seq<Section>): (ms: seq<Match>)
    ensures |ms| == |secs|
    decreases |secs|
  {
    if secs == [] then []
    else [Match(secs[0].header, DropFinalNewline(secs[0].body))] + Expected(secs[1..])
  }

  /** The `i`-th expected pair holds the `i`-th heading and text. */
  lemma {:induction false} ExpectedAt(secs: seq<Section>, i: int)
    requires 0 <= i < |secs|
    ensures Expected(secs)[i] == Match(secs[i].header, DropFinalNewline(secs[i].body))
    decreases |secs|
  {
    if i > 0 {
      ExpectedAt(secs[1..], i - 1);
    }
  }

  /** A rendered non-empty layout starts with a marker. */
  lemma RenderStartsWithMarker(secs: seq<Section>)
    requires secs != []
    ensures MarkerAt(Render(secs), 0)
  {
    var s := Render(secs);
    assert s == Heading(secs[0].header) + secs[0].body + Render(secs[1..]);
    assert s[0] == '#' && s[1] == '#' && s[2] == '#' && s[3] == ' ';
  }

  /**
   * The match at the front of one rendered section: the header group is the heading,
   * and the body group is the section text up to the newline that precedes the next
   * heading (or that ends the text).
   */
  lemma SectionMatch(p: string, b: string, rest: string)
    requires '\n' !in p && NoBreak(b)
    requires rest != [] ==> MarkerAt(rest, 0) && b != [] && b[|b| - 1] == '\n'
    ensures MatchHere(Heading(p) + b + rest)
      == Some((Match(p, DropFinalNewline(b)), |Heading(p)| + |DropFinalNewline(b)|))
  {
    HeaderEnd(p, b, rest);
    BodyStop("### " + p + "\n", b, rest);
    assert Heading(p) == "### " + p + "\n";
  }

  /**
   * In a heading line followed by text, the marker is at the front, the header group
   * is the phrase and ends at the line's newline.
   */
  lemma HeaderEnd(p: string, b: string, rest: string)
    requires '\n' !in p
    ensures MarkerAt("### " + p + "\n" + b + rest, 0)
    ensures NewlineFrom("### " + p + "\n" + b + rest, 4) == Some(4 + |p|)
    ensures ("### " + p + "\n" + b + rest)[4..4 + |p|] == p
  {
    var s := "### " + p + "\n" + b + rest;
    assert s[0] == '#' && s[1] == '#' && s[2] == '#' && s[3] == ' ';
    var q := 4 + |p|;
    assert s[q] == '\n';
    forall k | 4 <= k < q ensures s[k] != '\n' {
      assert s[k] == p[k - 4];
    }
    assert s[4..q] == p;
  }

  /**
   * The body group that starts right after heading line `h` ends at the newline before
   * the next marker, or before a newline that ends the text, or at the end.
   */
  lemma BodyStop(h: string, b: string, rest: string)
    requires NoBreak(b)
    requires rest != [] ==> MarkerAt(rest, 0) && b != [] && b[|b| - 1] == '\n'
    ensures BodyEnd(h + b + rest, |h|) == |h| + |DropFinalNewline(b)|
    ensures (h + b + rest)[|h|..|h| + |DropFinalNewline(b)|] == DropFinalNewline(b)
  {
    var s := h + b + rest;
    var d := DropFinalNewline(b);
    var e := |h| + |d|;
    assert StopAt(s, e) by {
      if d != b {
        if rest != [] {
          assert s[e] == '\n' && s[e + 1..] == rest;
          assert BreakAt(s, e);
        } else {
          assert e == |s| - 1 && s[e] == '\n';
        }
      }
    }
    forall k | |h| <= k < e ensures !StopAt(s, k) {
      BreakInside(h, b, rest, k);
      assert s[k] == b[k - |h|];
    }
    assert s[|h|..e] == d;
  }

  /**
   * Inside the section text (before its final newline when a heading follows), a
   * newline-plus-marker of the whole text is one of the section text alone.
   */
  lemma BreakInside(h: string, b: string, rest: string, k: int)
    requires |h| <= k
    requires rest == [] ==> k < |h| + |b|
    requires rest != [] ==> b != [] && b[|b| - 1] == '\n' && k < |h| + |b| - 1
    ensures BreakAt(h + b + rest, k) ==> BreakAt(b, k - |h|)
  {
    var s := h + b + rest;
    var n := |h| + |b|;
    if BreakAt(s, k) {
      if rest != [] {
        assert s[n - 1] == '\n';
      }
      assert k + 4 < n;
      var j := k - |h|;
      assert s[k] == b[j] && s[k + 1] == b[j + 1] && s[k + 2] == b[j + 2];
      assert s[k + 3] == b[j + 3] && s[k + 4] == b[j + 4];
    }
  }

  /**
   * The scan of a well-formed layout returns one pair per section, in order: the entry's
   * phrase and the section text without a newline that ends it.
   */
  lemma {:induction false} FindAllRender(secs: seq<Section>)
    requires WellFormed(secs)
    ensures FindAll(Render(secs)) == Expected(secs)
    decreases |secs|
  {
    if secs != [] {
      var p, b, rest := secs[0].header, secs[0].body, Render(secs[1..]);
      var s := Render(secs);
      assert s == Heading(p) + b + rest;
      WellFormedFront(secs);
      if secs[1..] != [] {
        RenderStartsWithMarker(secs[1..]);
      }
      SectionMatch(p, b, rest);
      var gap := AfterSection(Heading(p), b, rest);
      FindAllSkipsHashFree(gap, rest);
      FindAllRender(secs[1..]);
    }
  }

  /** The first section of a well-formed layout meets the conditions, and so does the rest. */
  lemma WellFormedFront(secs: seq<Section>)
    requires WellFormed(secs) && secs != []
    ensures '\n' !in secs[0].header && NoBreak(secs[0].body)
    ensures |secs| > 1 ==> secs[0].body != [] && secs[0].body[|secs[0].body| - 1] == '\n'
    ensures WellFormed(secs[1..])
  {
    forall i | 0 <= i < |secs[1..]|
      ensures '\n' !in secs[1..][i].header && NoBreak(secs[1..][i].body)
      ensures i + 1 < |secs[1..]| ==> secs[1..][i].body != [] && secs[1..][i].body[|secs[1..][i].body| - 1] == '\n'
    {
      assert secs[1..][i] == secs[i + 1];
    }
  }

  /** What the scan resumes on after a section's match: at most a newline, then the rest. */
  lemma AfterSection(h: string, b: string, rest: string) returns (gap: string)
    ensures '#' !in gap
    ensures (h + b + rest)[|h| + |DropFinalNewline(b)|..] == gap + rest
  {
    gap := b[|DropFinalNewline(b)|..];
    assert gap == [] || gap == "\n";
  }

  /** Dropping a final newline does not change what `strip()` keeps. */
  lemma StripDropFinalNewline(b: string)
    ensures Strip(DropFinalNewline(b)) == Strip(b)
  {
    if b != [] && b[|b| - 1] == '\n' {
      assert b == b[..|b| - 1] + "\n";
      StripDropsFinalNewline(b[..|b| - 1]);
    }
  }

  /** The heading of `sec` selects entry `f`. */
  predicate Selects(sec: Section, f: Field)
  {
    Target(Match(sec.header, sec.body)) == Some(f)
  }

  /** The heading of section `i` selects entry `f` and no later heading does. */
  predicate LastSection(secs: seq<Section>, f: Field, i: int)
  {
    0 <= i < |secs| && Selects(secs[i], f) && forall j :: i < j < |secs| ==> !Selects(secs[j], f)
  }

  /** No heading selects entry `f`. */
  predicate Absent(secs: seq<Section>, f: Field)
  {
    forall j :: 0 <= j < |secs| ==> !Selects(secs[j], f)
  }

  /**
   * Each pair the scan returns for a layout goes to the entry its section's heading
   * selects, and its stripped body is the section's stripped text.
   */
  lemma RenderedPairs(secs: seq<Section>)
    requires WellFormed(secs)
    ensures |FindAll(Render(secs))| == |secs|
    ensures forall i, f :: 0 <= i < |secs| ==>
      (Target(FindAll(Render(secs))[i]) == Some(f) <==> Selects(secs[i], f))
    ensures forall i :: 0 <= i < |secs| ==> Strip(FindAll(Render(secs))[i].body) == Strip(secs[i].body)
  {
    FindAllRender(secs);
    forall i | 0 <= i < |secs|
      ensures FindAll(Render(secs))[i].header == secs[i].header
      ensures Strip(FindAll(Render(secs))[i].body) == Strip(secs[i].body)
    {
      ExpectedAt(secs, i);
      StripDropFinalNewline(secs[i].body);
    }
  }

  /**
   * The round trip from layout to dict: parsing a well-formed layout gives every entry
   * the stripped text of the last section whose heading selects it, and the fallback
   * text to every entry that no heading selects.
   */
  lemma ParseRendered(secs: seq<Section>)
    requires WellFormed(secs)
    ensures forall f :: Absent(secs, f) ==>
      Key(f) in Parse(Render(secs)) && Parse(Render(secs))[Key(f)] == Fallback
    ensures forall f, i :: LastSection(secs, f, i) ==>
      Key(f) in Parse(Render(secs)) && Parse(Render(secs))[Key(f)] == Strip(secs[i].body)
  {
    var ms := FindAll(Render(secs));
    RenderedPairs(secs);
    ParseEntries(Render(secs));
    forall f | Absent(secs, f) ensures NeverSet(ms, f) {
    }
    forall f, i | LastSection(secs, f, i) ensures LastSetter(ms, f, i) {
    }
  }

  /** A heading that is exactly an entry's phrase selects that entry and no other. */
  lemma PhraseHeadingSelects(f: Field, body: string)
    ensures forall g :: Selects(Section(Phrase(f), body), g) <==> g == f
  {
    PhraseSelects(f);
  }

  /**
   * A layout whose headings are the six phrases in chain order, as the system prompt
   * asks for: every entry receives the stripped text of its own section.
   */
  lemma ParsePhraseLayout(secs: seq<Section>)
    requires WellFormed(secs) && |secs| == |Chain|
    requires forall i :: 0 <= i < |secs| ==> secs[i].header == Phrase(Chain[i])
    ensures forall i :: 0 <= i < |secs| ==>
      Key(Chain[i]) in Parse(Render(secs)) && Parse(Render(secs))[Key(Chain[i])] == Strip(secs[i].body)
  {
    PhraseLayoutLast(secs);
    ParseRendered(secs);
  }

  /** In such a layout, section `i` is the last (and only) one selecting the `i`-th entry. */
  lemma PhraseLayoutLast(secs: seq<Section>)
    requires |secs| == |Chain|
    requires forall i :: 0 <= i < |secs| ==> secs[i].header == Phrase(Chain[i])
    ensures forall i :: 0 <= i < |secs| ==> LastSection(secs, Chain[i], i)
  {
    ChainRank();
    forall i | 0 <= i < |secs| ensures LastSection(secs, Chain[i], i) {
      PhraseHeadingSelects(Chain[i], secs[i].body);
      assert secs[i] == Section(Phrase(Chain[i]), secs[i].body);
      forall j | i < j < |secs| ensures !Selects(secs[j], Chain[i]) {
        PhraseHeadingSelects(Chain[j], secs[j].body);
        assert secs[j] == Section(Phrase(Chain[j]), secs[j].body);
        assert Rank(Chain[j]) != Rank(Chain[i]);
      }
    }
  }
}
