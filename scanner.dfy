/**
 * The heading scan of `parse_gemini_response`: `re.findall` with the pattern
 * `###\s(.*?)\n(.*?)(?=\n###\s|$)` and DOTALL, written out by hand.
 *
 * The pattern looks only forward (a lookahead and `$`), so whether a match starts at
 * position p of the text depends only on the text from p on. The scan is therefore
 * stated on suffixes: try a match at the front; on success emit it and continue after
 * it, otherwise drop one character and try again.
 */
module Scanner {
  import opened Wrappers
  import opened Text

  /** One `(header, content)` pair as `re.findall` returns it (the two groups). */
  datatype Match = Match(header: string, body: string)

  /** `###` followed by one whitespace character (the `###\s` of the pattern) starts at `p`. */
  predicate MarkerAt(s: string, p: int)
  {
    0 <= p && p + 4 <= |s| && s[p] == '#' && s[p + 1] == '#' && s[p + 2] == '#' && IsSpace(s[p + 3])
  }

  /** A newline directly followed by a marker (the `\n###\s` of the lookahead) starts at `k`. */
  predicate BreakAt(s: string, k: int)
  {
    0 <= k < |s| && s[k] == '\n' && MarkerAt(s, k + 1)
  }

  /** The text contains no newline-plus-marker. */
  predicate NoBreak(s: string)
  {
    forall k :: 0 <= k < |s| ==> !BreakAt(s, k)
  }

  /**
   * The lookahead `(?=\n###\s|$)` succeeds at `k`. Without MULTILINE, Python's `$`
   * matches at the end of the text and also just before a newline that ends it.
   */
  predicate StopAt(s: string, k: int)
  {
    BreakAt(s, k) || k == |s| || (0 <= k == |s| - 1 && s[k] == '\n')
  }

  /** The index of the first newline at or after `i`, if there is one. */
  function NewlineFrom(s: string, i: nat): (r: Option<nat>)
    ensures r.Some? ==> i <= r.value < |s| && s[r.value] == '\n'
    ensures r.Some? ==> forall k :: i <= k < r.value ==> s[k] != '\n'
    ensures r.None? <==> forall k :: i <= k < |s| ==> s[k] != '\n'
    decreases |s| - i
  {
    if i >= |s| then None
    else if s[i] == '\n' then Some(i)
    else NewlineFrom(s, i + 1)
  }

  /**
   * Where the lazy body group `(.*?)` that starts at `i` ends: the first position at
   * which the lookahead succeeds. It always exists, since `$` holds at the end.
   */
  function BodyEnd(s: string, i: nat): (e: nat)
    requires i <= |s|
    ensures i <= e <= |s| && StopAt(s, e)
    ensures forall k :: i <= k < e ==> !StopAt(s, k)
    decreases |s| - i
  {
    if StopAt(s, i) then i else BodyEnd(s, i + 1)
  }

  /**
   * The pattern matches at `p`: a marker, then (the lazy header group) a newline
   * somewhere after it. The body group can always be matched, so nothing else is needed.
   */
  predicate MatchStart(s: string, p: int)
  {
    MarkerAt(s, p) && NewlineFrom(s, p + 4).Some?
  }

  /**
   * The match at the front of `s`, with the number of characters it consumes. The header
   * runs from after the marker to the first newline; the body from after that newline to
   * the first position where the lookahead holds.
   */
  function MatchHere(s: string): (r: Option<(Match, nat)>)
    ensures r.Some? <==> MatchStart(s, 0)
    ensures r.Some? ==> 5 <= r.value.1 <= |s|
    ensures r.Some? ==> '\n' !in r.value.0.header && NoBreak(r.value.0.body)
  {
    if MarkerAt(s, 0) then
      match NewlineFrom(s, 4)
      case None => None
      case Some(q) =>
        var e := BodyEnd(s, q + 1);
        var body := s[q + 1..e];
        assert NoBreak(body) by {
          forall k | BreakAt(body, k) ensures false {
            assert BreakAt(s, q + 1 + k);
            assert StopAt(s, q + 1 + k);
          }
        }
        Some((Match(s[4..q], body), e))
    else None
  }

  /**
   * What a match at the front holds: the header is the text between the marker and the
   * first newline after it, and the body runs from after that newline to the first
   * position where the lookahead succeeds, which is where the match ends.
   */
  lemma MatchHereContents(s: string)
    ensures MatchHere(s).Some? ==>
      exists q :: 4 <= q < |s| && s[q] == '\n' && (forall k :: 4 <= k < q ==> s[k] != '\n')
        && MatchHere(s).value.0.header == s[4..q]
        && MatchHere(s).value.1 == BodyEnd(s, q + 1)
        && MatchHere(s).value.0.body == s[q + 1..MatchHere(s).value.1]
  {
    if MatchHere(s).Some? {
      var q := NewlineFrom(s, 4).value;
      assert 4 <= q < |s|;
    }
  }

  /**
   * `re.findall(pattern, s, re.DOTALL)`: the matches from left to right, each search
   * resuming where the previous match ended. Every header is a single line, and no body
   * runs across a newline-plus-marker.
   */
  function FindAll(s: string): seq<Match>
    decreases |s|
  {
    if s == [] then []
    else
      match MatchHere(s)
      case Some((m, n)) => [m] + FindAll(s[n..])
      case None => FindAll(s[1..])
  }

  /**
   * Every pair `findall` returns has a one-line header and a body in which no heading
   * starts on a later line.
   */
  lemma {:induction false} FindAllShape(s: string)
    ensures forall m :: m in FindAll(s) ==> '\n' !in m.header && NoBreak(m.body)
    decreases |s|
  {
    if s != [] {
      match MatchHere(s)
      case Some((m, n)) => FindAllShape(s[n..]);
      case None => FindAllShape(s[1..]);
    }
  }

  lemma NewlineFromShift(s: string, i: nat)
    requires 1 <= i && 1 <= |s|
    ensures NewlineFrom(s, i).Some? <==> NewlineFrom(s[1..], i - 1).Some?
  {
    if NewlineFrom(s, i).Some? {
      var q := NewlineFrom(s, i).value;
      assert s[1..][q - 1] == '\n';
    }
    if NewlineFrom(s[1..], i - 1).Some? {
      var q := NewlineFrom(s[1..], i - 1).value;
      assert s[q + 1] == '\n';
    }
  }

  /** Whether a match starts at `p` does not depend on what comes before `p`. */
  lemma MatchStartShift(s: string, p: int)
    requires 1 <= p <= |s|
    ensures MatchStart(s, p) <==> MatchStart(s[1..], p - 1)
  {
    NewlineFromShift(s, p + 4);
  }

  /** The scan passes over positions where no match starts. */
  lemma {:induction false} FindAllSkips(s: string, p: nat)
    requires p <= |s|
    requires forall k :: 0 <= k < p ==> !MatchStart(s, k)
    ensures FindAll(s) == FindAll(s[p..])
    decreases p
  {
    if p > 0 {
      assert MatchHere(s).None?;
      forall k | 0 <= k < p - 1 ensures !MatchStart(s[1..], k) {
        MatchStartShift(s, k + 1);
      }
      FindAllSkips(s[1..], p - 1);
      assert s[1..][p - 1..] == s[p..];
    }
  }

  /** `findall` finds nothing exactly when the pattern matches at no position of the text. */
  lemma {:induction false} FindAllEmptyIff(s: string)
    ensures FindAll(s) == [] <==> forall p :: 0 <= p < |s| ==> !MatchStart(s, p)
    decreases |s|
  {
    if s != [] && MatchHere(s).None? {
      FindAllEmptyIff(s[1..]);
      forall p | 1 <= p < |s| ensures MatchStart(s, p) <==> MatchStart(s[1..], p - 1) {
        MatchStartShift(s, p);
      }
      forall p | 0 <= p < |s| - 1 ensures MatchStart(s[1..], p) <==> MatchStart(s, p + 1) {
        MatchStartShift(s, p + 1);
      }
    }
  }

  /** Where the pattern matches nowhere, `findall` returns nothing. */
  lemma NothingToFind(s: string)
    requires forall p :: 0 <= p < |s| ==> !MatchStart(s, p)
    ensures FindAll(s) == []
  {
    FindAllEmptyIff(s);
  }

  /** Text without a `#` holds no match, so a prefix without one is skipped entirely. */
  lemma FindAllSkipsHashFree(prefix: string, rest: string)
    requires '#' !in prefix
    ensures FindAll(prefix + rest) == FindAll(rest)
  {
    var s := prefix + rest;
    forall k | 0 <= k < |prefix| ensures !MatchStart(s, k) {
      assert s[k] == prefix[k];
    }
    FindAllSkips(s, |prefix|);
    assert s[|prefix|..] == rest;
  }
}
