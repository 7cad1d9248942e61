/** The few ECMAScript string primitives the application leans on:
    `trim`, `split` with a string separator, and `toLowerCase` as far as
    it can matter for ASCII comparisons. Strings are sequences of code
    points. */
module JsString {
  import opened Common

  /** ECMAScript WhiteSpace and LineTerminator code points, the set that
      `String.prototype.trim` strips (ECMA-262, sections 12.2 and 12.3):
      tab, line feed, vertical tab, form feed, carriage return, space,
      no-break space, the Unicode space separators (U+1680, U+2000 to
      U+200A, U+202F, U+205F, U+3000), the line and paragraph separators
      and the byte order mark. */
  predicate IsSpace(c: char)
  {
    || '\U{0009}' <= c <= '\U{000D}'
    || c == '\U{0020}' || c == '\U{00A0}' || c == '\U{1680}'
    || '\U{2000}' <= c <= '\U{200A}'
    || c == '\U{2028}' || c == '\U{2029}' || c == '\U{202F}' || c == '\U{205F}'
    || c == '\U{3000}' || c == '\U{FEFF}'
  }

  predicate AllSpace(s: string)
  {
    forall i :: 0 <= i < |s| ==> IsSpace(s[i])
  }

  /** How many white-space characters `s` starts with. */
  function LeadingSpaces(s: string): (n: nat)
    ensures n <= |s| && AllSpace(s[..n])
    ensures n == |s| || !IsSpace(s[n])
  {
    if s == [] || !IsSpace(s[0]) then 0
    else
      var m := LeadingSpaces(s[1..]);
      SpaceBefore(s, m + 1);
      m + 1
  }

  /** Drops leading white space: the result is a suffix of `s`, what was
      dropped is all white space, and the result does not start with any. */
  function TrimStart(s: string): (r: string)
    ensures |r| <= |s| && r == s[|s| - |r|..]
    ensures AllSpace(s[..|s| - |r|])
    ensures r == [] || !IsSpace(r[0])
  {
    s[LeadingSpaces(s)..]
  }

  /** A white-space character in front of white space. */
  lemma SpaceBefore(s: string, n: nat)
    requires 0 < n <= |s| && IsSpace(s[0]) && AllSpace(s[1..][..n - 1])
    ensures AllSpace(s[..n])
  {
    forall i | 0 <= i < n ensures IsSpace(s[..n][i]) {
      if i > 0 {
        assert s[..n][i] == s[1..][..n - 1][i - 1];
      }
    }
  }

  /** How many white-space characters `s` ends with. */
  function TrailingSpaces(s: string): (n: nat)
    ensures n <= |s| && AllSpace(s[|s| - n..])
    ensures n == |s| || !IsSpace(s[|s| - n - 1])
  {
    if s == [] || !IsSpace(s[|s| - 1]) then 0
    else
      var m := TrailingSpaces(s[..|s| - 1]);
      SpaceAfter(s, m + 1);
      m + 1
  }

  /** White space followed by a white-space character. */
  lemma SpaceAfter(s: string, n: nat)
    requires 0 < n <= |s| && IsSpace(s[|s| - 1]) && AllSpace(s[..|s| - 1][|s| - n..])
    ensures AllSpace(s[|s| - n..])
  {
    var t := s[|s| - n..];
    var u := s[..|s| - 1][|s| - n..];
    forall i | 0 <= i < |t| ensures IsSpace(t[i]) {
      if i < n - 1 {
        assert t[i] == u[i];
      }
    }
  }

  /** Drops trailing white space: the result is a prefix of `s`, what was
      dropped is all white space, and the result does not end with any. */
  function TrimEnd(s: string): (r: string)
    ensures |r| <= |s| && r == s[..|r|]
    ensures AllSpace(s[|r|..])
    ensures r == [] || !IsSpace(r[|r| - 1])
  {
    s[..|s| - TrailingSpaces(s)]
  }

  /** `String.prototype.trim`: the result is a contiguous piece of `s`,
      everything cut off on either side is white space, the result neither
      starts nor ends with white space, and it is empty exactly when `s`
      is blank. */
  function Trim(s: string): (r: string)
    ensures exists a :: TrimmedAt(s, r, a)
    ensures r == [] || (!IsSpace(r[0]) && !IsSpace(r[|r| - 1]))
    ensures r == [] <==> AllSpace(s)
  {
    var t := TrimStart(s);
    var r := TrimEnd(t);
    TrimFacts(s, t, r);
    r
  }

  /** `r` sits at index `a` of `s` with only white space around it. */
  predicate TrimmedAt(s: string, r: string, a: int)
  {
    0 <= a <= |s| - |r| && r == s[a..a + |r|] && AllSpace(s[..a]) && AllSpace(s[a + |r|..])
  }

  lemma TrimFacts(s: string, t: string, r: string)
    requires t == TrimStart(s) && r == TrimEnd(t)
    ensures TrimmedAt(s, r, |s| - |t|)
    ensures r == [] <==> AllSpace(s)
  {
    var a := |s| - |t|;
    TrimPieces(s, a, t, r);
    if r != [] {
      assert s[a] == r[0];
    }
  }

  /** Gluing the pieces back: `s` is white space, then `r`, then white space. */
  lemma TrimPieces(s: string, a: nat, t: string, r: string)
    requires a <= |s| && t == s[a..] && |r| <= |t| && r == t[..|r|]
    requires AllSpace(s[..a]) && AllSpace(t[|r|..])
    ensures TrimmedAt(s, r, a)
    ensures r == [] ==> AllSpace(s)
  {
    assert s[a + |r|..] == t[|r|..];
    if r == [] {
      forall i | 0 <= i < |s| ensures IsSpace(s[i]) {
        if i < a {
          assert s[i] == s[..a][i];
        } else {
          assert s[i] == t[i - a];
        }
      }
    }
  }

  /** `sep` occurs in `s` starting at index `k`. */
  predicate OccursAt(s: string, sep: string, k: int)
  {
    0 <= k && k + |sep| <= |s| && s[k..k + |sep|] == sep
  }

  predicate Contains(s: string, sep: string)
  {
    exists k :: 0 <= k <= |s| && OccursAt(s, sep, k)
  }

  /** The first index at or after `i` where `sep` occurs. */
  function FindFrom(s: string, sep: string, i: nat): (r: Option<nat>)
    ensures r.Some? ==> i <= r.value && OccursAt(s, sep, r.value)
    ensures r.Some? ==> forall k :: i <= k < r.value ==> !OccursAt(s, sep, k)
    ensures r.None? ==> forall k :: i <= k ==> !OccursAt(s, sep, k)
    decreases |s| - i
  {
    if i + |sep| > |s| then None
    else if s[i..i + |sep|] == sep then Some(i)
    else FindFrom(s, sep, i + 1)
  }

  /** Joins parts with a separator, the inverse of `Split`. */
  function Join(parts: seq<string>, sep: string): string
  {
    if parts == [] then []
    else if |parts| == 1 then parts[0]
    else parts[0] + sep + Join(parts[1..], sep)
  }

  /** `String.prototype.split` with a non-empty string separator: the
      occurrences of `sep`, found left to right without overlap, cut `s`
      into at least one part; joining the parts back gives `s`, and no
      part contains `sep`. For a separator that cannot overlap itself,
      such as `,` and `;q=` (the only ones split on here), these facts
      pin the parts down; for any separator, `SplitHead` states that each
      cut is made at the leftmost remaining occurrence. */
  function Split(s: string, sep: string): (r: seq<string>)
    requires |sep| > 0
    ensures |r| >= 1
    ensures Join(r, sep) == s
    ensures forall k :: 0 <= k < |r| ==> !Contains(r[k], sep)
    decreases |s|
  {
    match FindFrom(s, sep, 0)
    case None =>
      [s]
    case Some(k) =>
      var head := s[..k];
      var tail := Split(s[k + |sep|..], sep);
      assert s == head + sep + s[k + |sep|..];
      NoEarlierOccurrence(s, sep, k);
      assert ([head] + tail)[1..] == tail;
      [head] + tail
  }

  /** The text before the first occurrence of `sep` does not contain it. */
  lemma NoEarlierOccurrence(s: string, sep: string, k: nat)
    requires |sep| > 0 && k <= |s|
    requires forall j :: 0 <= j < k ==> !OccursAt(s, sep, j)
    ensures !Contains(s[..k], sep)
  {
    if Contains(s[..k], sep) {
      var j :| 0 <= j <= k && OccursAt(s[..k], sep, j);
      assert s[..k][j..j + |sep|] == s[j..j + |sep|];
      assert OccursAt(s, sep, j);
    }
  }

  /** The first part of a split is everything before the first
      occurrence of the separator (or all of `s` when there is none). */
  lemma SplitHead(s: string, sep: string)
    requires |sep| > 0
    ensures FindFrom(s, sep, 0).None? ==> Split(s, sep) == [s]
    ensures FindFrom(s, sep, 0).Some? ==>
              var k := FindFrom(s, sep, 0).value;
              |Split(s, sep)| >= 2 && Split(s, sep)[0] == s[..k]
              && Split(s, sep)[1..] == Split(s[k + |sep|..], sep)
  {
  }

  /** The lower-case form of a code point, as far as `toLowerCase` can
      produce an ASCII letter: A-Z and U+212A KELVIN SIGN (which lowers to
      `k`). Every other code point is kept. For the other ASCII code
      points (digits, punctuation such as `(` and `/`, and `a`-`z`) that
      is exactly what `toLowerCase` does. The real lower case of every
      other non-ASCII code point still contains a non-ASCII code point,
      so it never compares equal to an ASCII string either way. */
  function LowerChar(c: char): (r: char)
    ensures r == ' ' <==> c == ' '
    ensures r == '/' <==> c == '/'
    ensures IsSpace(r) <==> IsSpace(c)
    ensures !('A' <= r <= 'Z') && r != '\U{212A}'
    ensures 'a' <= r <= 'z' ==> c == r || c as int == r as int - 32 || (r == 'k' && c == '\U{212A}')
  {
    if 'A' <= c <= 'Z' then (c as int + 32) as char
    else if c == '\U{212A}' then 'k'
    else c
  }

  /** `s.toLowerCase()`, code point by code point, within the limits of
      `LowerChar`. */
  function Lower(s: string): (r: string)
    ensures |r| == |s|
    ensures forall i :: 0 <= i < |s| ==> r[i] == LowerChar(s[i])
    ensures forall i :: 0 <= i < |r| ==> !('A' <= r[i] <= 'Z')
  {
    seq(|s|, i requires 0 <= i < |s| => LowerChar(s[i]))
  }

  /** Lower-casing twice is lower-casing once. */
  lemma LowerIdempotent(s: string)
    ensures Lower(Lower(s)) == Lower(s)
  {
    forall i | 0 <= i < |s| ensures Lower(Lower(s))[i] == Lower(s)[i] {
      LowerCharFixed(Lower(s)[i]);
    }
  }

  /** A code point that is already lower case is kept. */
  lemma LowerCharFixed(c: char)
    requires !('A' <= c <= 'Z') && c != '\U{212A}'
    ensures LowerChar(c) == c
  {
  }
}
