/**
 * The string primitives the parser and the request checks rely on: Python's
 * `str.isspace`, `str.strip`, `str.upper` and the substring test `needle in haystack`,
 * restricted to ASCII characters.
 */
module Text {

  /** `c.isspace()` for ASCII: space, the controls \t \n \v \f \r and the separators \x1c-\x1f. */
  predicate IsSpace(c: char)
  {
    c == ' ' || 9 <= c as int <= 13 || 28 <= c as int <= 31
  }

  /** Every character of `s` is whitespace (so `s.strip()` is empty). */
  predicate IsBlank(s: string)
  {
    forall k :: 0 <= k < |s| ==> IsSpace(s[k])
  }

  /** `s.lstrip()`: the suffix of `s` that starts at its first non-whitespace character. */
  function LStrip(s: string): (r: string)
    ensures |r| <= |s| && r == s[|s| - |r|..]
    ensures forall k :: 0 <= k < |s| - |r| ==> IsSpace(s[k])
    ensures r != [] ==> !IsSpace(r[0])
    decreases |s|
  {
    if |s| > 0 && IsSpace(s[0]) then LStrip(s[1..]) else s
  }

  /** `s.rstrip()`: the prefix of `s` that ends at its last non-whitespace character. */
  function RStrip(s: string): (r: string)
    ensures |r| <= |s| && r == s[..|r|]
    ensures forall k :: |r| <= k < |s| ==> IsSpace(s[k])
    ensures r != [] ==> !IsSpace(r[|r| - 1])
    decreases |s|
  {
    if |s| > 0 && IsSpace(s[|s| - 1]) then RStrip(s[..|s| - 1]) else s
  }

  /** `s.strip()`: `s` without its leading and trailing whitespace. */
  function Strip(s: string): string
  {
    RStrip(LStrip(s))
  }

  /**
   * `strip()` keeps a contiguous part of `s` whose removed ends are all whitespace and
   * whose own ends are not; it is empty exactly when `s` is blank.
   */
  lemma StripSpec(s: string)
    ensures Strip(s) == [] <==> IsBlank(s)
    ensures Strip(s) != [] ==> !IsSpace(Strip(s)[0]) && !IsSpace(Strip(s)[|Strip(s)| - 1])
    ensures exists i :: (0 <= i <= |s| - |Strip(s)| && Strip(s) == s[i..i + |Strip(s)|]
                         && IsBlank(s[..i]) && IsBlank(s[i + |Strip(s)|..]))
  {
    StripEmptyIff(s);
    StripEnds(s);
    var i := StripSlice(s);
  }

  lemma StripEmptyIff(s: string)
    ensures Strip(s) == [] <==> IsBlank(s)
  {
    var l := LStrip(s);
    if l != [] {
      assert s[|s| - |l|] == l[0];
    }
  }

  lemma StripEnds(s: string)
    ensures Strip(s) != [] ==> !IsSpace(Strip(s)[0]) && !IsSpace(Strip(s)[|Strip(s)| - 1])
  {
    var l := LStrip(s);
    var r := RStrip(l);
    if r != [] {
      assert r[0] == l[0];
    }
  }

  lemma StripSlice(s: string) returns (i: int)
    ensures var t := Strip(s);
      0 <= i <= |s| - |t| && t == s[i..i + |t|] && IsBlank(s[..i]) && IsBlank(s[i + |t|..])
  {
    var l := LStrip(s);
    var r := RStrip(l);
    i := |s| - |l|;
    Between(s, l, r, i);
  }

  /** A part `r` of a suffix `l` of `s`, with only whitespace around it. */
  lemma Between(s: string, l: string, r: string, i: int)
    requires i == |s| - |l|
    requires |l| <= |s| && l == s[|s| - |l|..]
    requires forall k :: 0 <= k < |s| - |l| ==> IsSpace(s[k])
    requires |r| <= |l| && r == l[..|r|]
    requires forall k :: |r| <= k < |l| ==> IsSpace(l[k])
    ensures 0 <= i <= |s| - |r| && s[i..i + |r|] == r
    ensures IsBlank(s[..i]) && IsBlank(s[i + |r|..])
  {
    assert s[i..i + |r|] == l[..|r|];
    BlankTake(s, i);
    BlankDrop(l, |r|);
    assert s[i + |r|..] == l[|r|..];
  }

  /** A prefix whose characters are all whitespace is blank. */
  lemma BlankTake(s: string, n: int)
    requires 0 <= n <= |s|
    requires forall k :: 0 <= k < n ==> IsSpace(s[k])
    ensures IsBlank(s[..n])
  {
    forall k | 0 <= k < n ensures IsSpace(s[..n][k]) {
      assert s[..n][k] == s[k];
    }
  }

  /** A suffix whose characters are all whitespace is blank. */
  lemma BlankDrop(s: string, n: int)
    requires 0 <= n <= |s|
    requires forall k :: n <= k < |s| ==> IsSpace(s[k])
    ensures IsBlank(s[n..])
  {
    forall k | 0 <= k < |s| - n ensures IsSpace(s[n..][k]) {
      assert s[n..][k] == s[n + k];
    }
  }

  /** A string whose two ends are not whitespace is its own `strip()`. */
  lemma {:induction false} StripTrimmed(s: string)
    requires s != [] ==> !IsSpace(s[0]) && !IsSpace(s[|s| - 1])
    ensures Strip(s) == s
  {
  }

  /** Appending a newline never changes what `strip()` keeps. */
  lemma {:induction false} StripDropsFinalNewline(s: string)
    ensures Strip(s + "\n") == Strip(s)
  {
    LStripAppend(s, '\n');
    var l := LStrip(s);
    if l == [] {
      assert "\n"[1..] == [];
      assert LStrip("\n") == [];
    } else {
      RStripAppendSpace(l, '\n');
    }
  }

  /** A whitespace character at the end is dropped by `rstrip()`. */
  lemma RStripAppendSpace(s: string, c: char)
    requires IsSpace(c)
    ensures RStrip(s + [c]) == RStrip(s)
  {
    assert (s + [c])[..|s|] == s;
  }

  lemma {:induction false} LStripAppend(s: string, c: char)
    ensures LStrip(s + [c]) == if LStrip(s) == [] then LStrip([c]) else LStrip(s) + [c]
    decreases |s|
  {
    if s == [] {
      assert s + [c] == [c];
    } else if IsSpace(s[0]) {
      assert (s + [c])[1..] == s[1..] + [c];
      LStripAppend(s[1..], c);
    }
  }

  /** `c.upper()` for ASCII: lower-case letters become upper-case, everything else is kept. */
  function UpperChar(c: char): char
  {
    if 'a' <= c <= 'z' then (c as int - 32) as char else c
  }

  /** `s.upper()`, character by character. */
  function Upper(s: string): string
  {
    seq(|s|, i requires 0 <= i < |s| => UpperChar(s[i]))
  }

  /** `needle` occurs in `haystack` starting at index `j`. */
  predicate OccursAt(haystack: string, needle: string, j: int)
  {
    0 <= j && j + |needle| <= |haystack| && haystack[j..j + |needle|] == needle
  }

  /** Python's `needle in haystack` on strings. */
  predicate Contains(haystack: string, needle: string)
  {
    ContainsFrom(haystack, needle, 0)
  }
  predicate ContainsFrom(haystack: string, needle: string, i: nat)
    decreases |haystack| - i
  {
    i + |needle| <= |haystack| && (haystack[i..i + |needle|] == needle || ContainsFrom(haystack, needle, i + 1))
  }

  /** `needle in haystack` holds exactly when the needle occurs at some index. */
  lemma ContainsIff(haystack: string, needle: string)
    ensures Contains(haystack, needle) <==> exists j :: OccursAt(haystack, needle, j)
  {
    ContainsFromIff(haystack, needle, 0);
  }

  lemma {:induction false} ContainsFromIff(haystack: string, needle: string, i: nat)
    ensures ContainsFrom(haystack, needle, i) <==> exists j :: i <= j && OccursAt(haystack, needle, j)
    decreases |haystack| - i
  {
    if i + |needle| <= |haystack| {
      ContainsFromIff(haystack, needle, i + 1);
      if haystack[i..i + |needle|] == needle {
        assert OccursAt(haystack, needle, i);
      }
      if exists j :: i <= j && OccursAt(haystack, needle, j) {
        var j :| i <= j && OccursAt(haystack, needle, j);
        if j != i {
          assert i + 1 <= j && OccursAt(haystack, needle, j);
        }
      }
    }
  }

  /** Every string occurs in itself. */
  lemma ContainsSelf(s: string)
    ensures Contains(s, s)
  {
    assert s[0..|s|] == s;
  }

  /** A needle longer than the haystack does not occur in it. */
  lemma LongerNotContained(haystack: string, needle: string)
    requires |haystack| < |needle|
    ensures !Contains(haystack, needle)
  {
  }

  /** A needle holding a character the haystack lacks does not occur in it. */
  lemma MissingCharNotContained(haystack: string, needle: string, k: nat)
    requires k < |needle| && needle[k] !in haystack
    ensures !Contains(haystack, needle)
  {
    ContainsIff(haystack, needle);
  }

  /**
   * When the needle's first character occurs once in the haystack and the character after
   * that occurrence is not the needle's second, the needle does not occur.
   */
  lemma SoleStartNotContained(head: string, c: char, tail: string, needle: string)
    requires 2 <= |needle| && needle[0] == c && c !in head && c !in tail
    requires tail != [] && tail[0] != needle[1]
    ensures !Contains(head + [c] + tail, needle)
  {
    var h := head + [c] + tail;
    ContainsIff(h, needle);
    forall j | 0 <= j && j + |needle| <= |h| ensures !OccursAt(h, needle, j) {
      assert h[j..j + |needle|][0] == h[j];
      if j < |head| {
        assert h[j] == head[j];
      } else if j > |head| {
        assert h[j] == tail[j - |head| - 1];
      } else {
        assert h[j + 1] == tail[0];
        assert h[j..j + |needle|][1] == h[j + 1];
      }
    }
  }

  /** A string with no lower-case letter is its own `upper()`. */
  lemma UpperKeeps(s: string)
    requires forall k :: 0 <= k < |s| ==> !('a' <= s[k] <= 'z')
    ensures Upper(s) == s
  {
    assert forall k :: 0 <= k < |s| ==> Upper(s)[k] == s[k];
  }
}
