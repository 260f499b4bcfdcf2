/**
  The three Python string operations the chat script relies on:
  the membership test `" " in s`, the split `s.split(" ", 1)` and `s.strip()`.
  Strings are sequences of characters; `strip()` with no argument removes the
  characters for which Python's `str.isspace` holds, while the split looks for the
  space character only.
*/
module PyStr {

  /**
    The characters Python's `str.isspace` accepts (and `str.strip()` removes):
    U+0009..U+000D, U+001C..U+0020, U+0085, U+00A0, U+1680, U+2000..U+200A,
    U+2028, U+2029, U+202F, U+205F and U+3000.
  */
  predicate IsSpace(c: char) {
    ('\U{9}' <= c <= '\U{D}') || ('\U{1C}' <= c <= ' ') ||
    c == '\U{85}' || c == '\U{A0}' || c == '\U{1680}' ||
    ('\U{2000}' <= c <= '\U{200A}') || c == '\U{2028}' || c == '\U{2029}' ||
    c == '\U{202F}' || c == '\U{205F}' || c == '\U{3000}'
  }

  /**
    Among ASCII characters, `strip()` removes exactly the space, tab, newline,
    carriage return, vertical tab, form feed and the four separators FS, GS, RS, US.
  */
  lemma AsciiWhitespace(c: char)
    requires c < '\U{80}'
    ensures IsSpace(c) <==> c in " \t\n\r\U{B}\U{C}\U{1C}\U{1D}\U{1E}\U{1F}"
  {
  }

  /** Every character of `s` is whitespace (vacuously so for ""). */
  predicate AllSpace(s: string) {
    forall k | 0 <= k < |s| :: IsSpace(s[k])
  }

  /** Neither end of `s` is whitespace: what `strip()` leaves behind. */
  predicate Trimmed(s: string) {
    s != [] ==> !IsSpace(s[0]) && !IsSpace(s[|s| - 1])
  }

  /** Index of the first space character: where `s.split(" ", 1)` cuts. */
  function FirstSpace(s: string): (i: nat)
    requires ' ' in s
    ensures i < |s| && s[i] == ' '
    ensures ' ' !in s[..i]
  {
    if s[0] == ' ' then 0
    else
      assert ' ' in s[1..] by {
        var k :| 0 <= k < |s| && s[k] == ' ';
        assert s[1..][k - 1] == ' ';
      }
      var j := FirstSpace(s[1..]);
      assert s[..j + 1] == [s[0]] + s[1..][..j];
      j + 1
  }

  /**
    `word, rest = s.split(" ", 1)` for a string that contains a space:
    the text before the first space and the text after it.
  */
  function SplitOnce(s: string): (parts: (string, string))
    requires ' ' in s
    ensures parts.0 + " " + parts.1 == s
    ensures ' ' !in parts.0
    ensures |parts.1| < |s|
  {
    var i := FirstSpace(s);
    assert s == s[..i] + " " + s[i + 1..];
    (s[..i], s[i + 1..])
  }

  /** Splitting `w + " " + t` where `w` holds no space gives back `w` and `t`. */
  lemma SplitOnceOfWord(w: string, t: string)
    requires ' ' !in w
    ensures ' ' in w + " " + t
    ensures SplitOnce(w + " " + t) == (w, t)
  {
    var s := w + " " + t;
    assert s[|w|] == ' ';
    assert s[..|w|] == w;
    var i := FirstSpace(s);
    if i < |w| {
      assert false;
    } else if i > |w| {
      assert false;
    }
    assert s[i + 1..] == t;
  }

  /** How many whitespace characters `s` starts with. */
  function LeadingSpaces(s: string): (n: nat)
    ensures n <= |s|
    ensures forall k | 0 <= k < n :: IsSpace(s[k])
    ensures n < |s| ==> !IsSpace(s[n])
  {
    if s != [] && IsSpace(s[0]) then
      var n := LeadingSpaces(s[1..]);
      assert forall k | 1 <= k < n + 1 :: s[k] == s[1..][k - 1];
      n + 1
    else 0
  }

  /** How many whitespace characters `s` ends with. */
  function TrailingSpaces(s: string): (n: nat)
    ensures n <= |s|
    ensures forall k | |s| - n <= k < |s| :: IsSpace(s[k])
    ensures n < |s| ==> !IsSpace(s[|s| - 1 - n])
  {
    if s != [] && IsSpace(s[|s| - 1]) then
      var n := TrailingSpaces(s[..|s| - 1]);
      assert forall k | |s| - 1 - n <= k < |s| - 1 :: s[k] == s[..|s| - 1][k];
      n + 1
    else 0
  }

  /**
    Python's `s.strip()`: the leading whitespace is skipped, then the trailing
    whitespace of what remains is cut off.
  */
  function Strip(s: string): (r: string)
    ensures LeadingSpaces(s) + |r| <= |s|
    ensures Trimmed(r)
    ensures r == "" <==> AllSpace(s)
    ensures r == s[LeadingSpaces(s)..LeadingSpaces(s) + |r|]
  {
    var i := LeadingSpaces(s);
    var t := s[i..];
    var j := |t| - TrailingSpaces(t);
    assert i < |s| ==> j > 0 by {
      if i < |s| {
        assert t[0] == s[i];
      }
    }
    assert AllSpace(s) ==> i == |s|;
    t[..j]
  }

  /** Leading whitespace ends where the first non-whitespace character of `m` sits. */
  lemma LeadingSpacesOfPadded(a: string, m: string)
    requires AllSpace(a) && m != [] && !IsSpace(m[0])
    ensures LeadingSpaces(a + m) == |a|
  {
    var s := a + m;
    var n := LeadingSpaces(s);
    assert s[|a|] == m[0];
    assert forall k | 0 <= k < |a| :: s[k] == a[k];
    if n < |a| {
      assert false;
    } else if n > |a| {
      assert false;
    }
  }

  /** Trailing whitespace starts right after the last non-whitespace character of `m`. */
  lemma TrailingSpacesOfPadded(m: string, b: string)
    requires AllSpace(b) && m != [] && !IsSpace(m[|m| - 1])
    ensures TrailingSpaces(m + b) == |b|
  {
    var s := m + b;
    var n := TrailingSpaces(s);
    assert s[|m| - 1] == m[|m| - 1];
    assert forall k | |m| <= k < |s| :: s[k] == b[k - |m|];
    if n < |b| {
      assert false;
    } else if n > |b| {
      assert false;
    }
  }

  /**
    `strip()` removes only whitespace at the two ends and keeps the rest as it is:
    whatever surrounds a trimmed core `m` with whitespace strips back to `m`.
  */
  lemma StripOfPadded(a: string, m: string, b: string)
    requires AllSpace(a) && AllSpace(b) && Trimmed(m)
    ensures Strip(a + m + b) == m
  {
    var s := a + m + b;
    if m == "" {
      assert AllSpace(s) by {
        forall k | 0 <= k < |s| ensures IsSpace(s[k]) {
          if k < |a| {
            assert s[k] == a[k];
          } else {
            assert s[k] == b[k - |a|];
          }
        }
      }
    } else {
      assert s == a + (m + b);
      LeadingSpacesOfPadded(a, m + b);
      assert s[|a|..] == m + b;
      TrailingSpacesOfPadded(m, b);
    }
  }

  /** `strip()` is idempotent. */
  lemma StripIdempotent(s: string)
    ensures Strip(Strip(s)) == Strip(s)
  {
    var m := Strip(s);
    StripOfPadded("", m, "");
    assert "" + m + "" == m;
  }
}
