/**
 * The Python string methods the scraper relies on, on `seq<char>`:
 * `isspace`, `strip()`, `lstrip(chars)`, `lower()`, `startswith` and
 * `replace(pat, "")`.
 */
module PyStr {

  /** Characters for which Python's `str.isspace()` holds; `strip()` removes these. */
  predicate IsSpace(c: char) {
    || ('\t' <= c <= '\r')
    || ('\U{1C}' <= c <= ' ')
    || c == '\U{85}' || c == '\U{A0}' || c == '\U{1680}'
    || ('\U{2000}' <= c <= '\U{200A}')
    || c == '\U{2028}' || c == '\U{2029}' || c == '\U{202F}' || c == '\U{205F}' || c == '\U{3000}'
  }

  /** Drops the longest prefix of `s` made of characters satisfying `drop`. */
  function TrimStart(s: string, drop: char -> bool): (r: string)
    ensures |r| <= |s| && r == s[|s| - |r|..]
    ensures forall i :: 0 <= i < |s| - |r| ==> drop(s[i])
    ensures r == [] || !drop(r[0])
  {
    if s != [] && drop(s[0]) then TrimStart(s[1..], drop) else s
  }

  /** Drops the longest suffix of `s` made of characters satisfying `drop`. */
  function TrimEnd(s: string, drop: char -> bool): (r: string)
    ensures |r| <= |s| && r == s[..|r|]
    ensures forall i :: |r| <= i < |s| ==> drop(s[i])
    ensures r == [] || !drop(r[|r| - 1])
  {
    if s != [] && drop(s[|s| - 1]) then TrimEnd(s[..|s| - 1], drop) else s
  }

  /** Python `s.lstrip(chars)`: `chars` is a SET of characters, not a prefix. */
  function LStripChars(s: string, chars: string): (r: string)
    ensures |r| <= |s| && r == s[|s| - |r|..]
    ensures forall i :: 0 <= i < |s| - |r| ==> s[i] in chars
    ensures r == [] || r[0] !in chars
  {
    if s != [] && s[0] in chars then LStripChars(s[1..], chars) else s
  }

  /** `r` occurs in `s` starting at index `i`. */
  predicate InfixAt(r: string, s: string, i: int) {
    0 <= i <= |s| - |r| && r == s[i..i + |r|]
  }

  /** Number of whitespace characters `s` starts with. */
  function LeadingSpaces(s: string): (n: nat)
    ensures n <= |s|
    ensures forall i :: 0 <= i < n ==> IsSpace(s[i])
    ensures n < |s| ==> !IsSpace(s[n])
  {
    if s != [] && IsSpace(s[0]) then 1 + LeadingSpaces(s[1..]) else 0
  }

  /** Python `s.strip()`: removes leading and trailing whitespace. */
  function Strip(s: string): (r: string)
    ensures InfixAt(r, s, LeadingSpaces(s))
    ensures forall i :: LeadingSpaces(s) + |r| <= i < |s| ==> IsSpace(s[i])
    ensures r == [] || (!IsSpace(r[0]) && !IsSpace(r[|r| - 1]))
    ensures r == [] <==> LeadingSpaces(s) == |s|
  {
    TrimEnd(s[LeadingSpaces(s)..], IsSpace)
  }

  /** Sole solution: whatever has the three properties of `LStripChars` is its result. */
  lemma {:induction false} LStripCharsUnique(s: string, chars: string, r: string)
    requires |r| <= |s| && r == s[|s| - |r|..]
    requires forall i :: 0 <= i < |s| - |r| ==> s[i] in chars
    requires r == [] || r[0] !in chars
    ensures r == LStripChars(s, chars)
  {
    var q := LStripChars(s, chars);
  }

  function LowerChar(c: char): char {
    if 'A' <= c <= 'Z' then (c as int + 32) as char else c
  }

  /** Python `s.lower()` on ASCII letters. */
  function Lower(s: string): (r: string)
    ensures |r| == |s|
    ensures forall i :: 0 <= i < |s| ==> r[i] == LowerChar(s[i])
  {
    seq(|s|, i requires 0 <= i < |s| => LowerChar(s[i]))
  }

  predicate StartsWith(s: string, prefix: string) {
    |prefix| <= |s| && s[..|prefix|] == prefix
  }

  /**
   * Python `s.replace(pat, "")`: scans left to right and deletes each
   * non-overlapping occurrence of `pat`.
   */
  function Replace(s: string, pat: string): (r: string)
    requires pat != []
    ensures |r| <= |s|
    ensures |pat| == 1 ==> pat[0] !in r
    ensures |pat| == 1 ==> forall c :: c != pat[0] ==> (c in r <==> c in s)
    decreases |s|
  {
    if |s| < |pat| then
      assert |pat| == 1 ==> s == [];
      s
    else if s[..|pat|] == pat then
      Replace(s[|pat|..], pat)
    else
      [s[0]] + Replace(s[1..], pat)
  }

  /** The characters of `s` other than `c`, in their order and number. */
  function Without(s: string, c: char): (r: string)
    ensures |r| <= |s|
  {
    if s == [] then [] else (if s[0] == c then [] else [s[0]]) + Without(s[1..], c)
  }

  /** Deleting a one-character pattern keeps exactly the other characters, in order. */
  lemma {:induction false} ReplaceChar(s: string, c: char)
    ensures Replace(s, [c]) == Without(s, c)
  {
    if s != [] {
      assert s[..1] == [s[0]];
      ReplaceChar(s[1..], c);
    }
  }

  /** A text in which `pat` starts nowhere is left as it is. */
  lemma {:induction false} ReplaceNone(s: string, pat: string)
    requires pat != [] && forall i :: 0 <= i < |s| ==> !StartsWith(s[i..], pat)
    ensures Replace(s, pat) == s
    decreases |s|
  {
    if |s| >= |pat| {
      assert s[0..] == s;
      forall i | 0 <= i < |s| - 1
        ensures !StartsWith(s[1..][i..], pat)
      {
        assert s[1..][i..] == s[i + 1..];
      }
      ReplaceNone(s[1..], pat);
    }
  }

  /**
   * The scan deletes the first occurrence of `pat` and goes on after it:
   * when `pat` starts nowhere in `x`, `x + pat + y` becomes `x` followed by
   * the replacement in `y`.
   */
  lemma {:induction false} ReplaceFirst(x: string, pat: string, y: string)
    requires pat != [] && forall i :: 0 <= i < |x| ==> !StartsWith((x + pat + y)[i..], pat)
    ensures Replace(x + pat + y, pat) == x + Replace(y, pat)
  {
    var s := x + pat + y;
    if x == [] {
      assert s == pat + y;
      ReplaceLeading(pat, y);
    } else {
      var t := x[1..] + pat + y;
      assert s == [x[0]] + t;
      assert s[0..] == s;
      ReplaceSkip(x[0], t, pat);
      forall i | 0 <= i < |x| - 1
        ensures !StartsWith(t[i..], pat)
      {
        assert t[i..] == s[i + 1..];
      }
      ReplaceFirst(x[1..], pat, y);
      assert x == [x[0]] + x[1..];
    }
  }

  /** A character where `pat` does not start is kept, and the scan moves on by one. */
  lemma ReplaceSkip(a: char, t: string, pat: string)
    requires pat != [] && !StartsWith([a] + t, pat)
    ensures Replace([a] + t, pat) == [a] + Replace(t, pat)
  {
    assert ([a] + t)[1..] == t;
    if |[a] + t| < |pat| {
      assert |t| < |pat|;
      assert |pat| > 1;
      ShortReplace(t, pat);
    }
  }

  lemma ShortReplace(t: string, pat: string)
    requires pat != [] && |t| < |pat|
    ensures Replace(t, pat) == t
  {
  }

  /** A one-character pattern that does not occur leaves the string as it is. */
  lemma {:induction false} ReplaceAbsent(s: string, c: char)
    requires c !in s
    ensures Replace(s, [c]) == s
  {
    if s != [] {
      assert s[..1] == [s[0]];
      ReplaceAbsent(s[1..], c);
    }
  }

  /** Deleting a character commutes with prepending a different one. */
  lemma ReplaceCons(x: char, s: string, c: char)
    requires x != c
    ensures Replace([x] + s, [c]) == [x] + Replace(s, [c])
  {
    assert ([x] + s)[..1] == [x];
    assert ([x] + s)[1..] == s;
  }

  /** Deleting `c` from `d + [c]` leaves `d` when `d` has no `c`. */
  lemma {:induction false} ReplaceTrailing(d: string, c: char)
    requires c !in d
    ensures Replace(d + [c], [c]) == d
  {
    if d == [] {
      assert [c][..1] == [c];
    } else {
      assert (d + [c])[1..] == d[1..] + [c];
      ReplaceCons(d[0], d[1..] + [c], c);
      assert [d[0]] + (d[1..] + [c]) == d + [c];
      ReplaceTrailing(d[1..], c);
    }
  }

  /** Deleting `c` from `x + [c] + y` joins `x` and `y` when neither has a `c`. */
  lemma {:induction false} ReplaceJoin(x: string, y: string, c: char)
    requires c !in x && c !in y
    ensures Replace(x + [c] + y, [c]) == x + y
  {
    if x == [] {
      assert ([c] + y)[..1] == [c] && ([c] + y)[1..] == y;
      ReplaceAbsent(y, c);
    } else {
      assert x + [c] + y == [x[0]] + (x[1..] + [c] + y);
      ReplaceCons(x[0], x[1..] + [c] + y, c);
      ReplaceJoin(x[1..], y, c);
      assert [x[0]] + (x[1..] + y) == x + y;
    }
  }

  /** A leading occurrence of `pat` is deleted. */
  lemma ReplaceLeading(pat: string, w: string)
    requires pat != []
    ensures Replace(pat + w, pat) == Replace(w, pat)
  {
    assert (pat + w)[..|pat|] == pat;
    assert (pat + w)[|pat|..] == w;
  }

  /** A string without the first character of `pat` has no occurrence to delete. */
  lemma {:induction false} ReplaceMissingHead(w: string, pat: string)
    requires pat != [] && pat[0] !in w
    ensures Replace(w, pat) == w
    decreases |w|
  {
    if |w| >= |pat| {
      assert w[..|pat|][0] == w[0];
      ReplaceMissingHead(w[1..], pat);
    }
  }

  /** `lstrip` passes over a prefix made only of characters of the set. */
  lemma {:induction false} LStripCharsSkip(x: string, w: string, chars: string)
    requires forall i :: 0 <= i < |x| ==> x[i] in chars
    ensures LStripChars(x + w, chars) == LStripChars(w, chars)
  {
    if x != [] {
      assert (x + w)[0] == x[0] && x[0] in chars;
      assert (x + w)[1..] == x[1..] + w;
      LStripCharsSkip(x[1..], w, chars);
    } else {
      assert x + w == w;
    }
  }

  /** `lstrip` stops at the first character outside the set. */
  lemma LStripCharsStop(w: string, chars: string)
    requires w != [] && w[0] !in chars
    ensures LStripChars(w, chars) == w
  {
  }

  /** Sole solution: a text made of whitespace, an unpadded `r` and whitespace strips to `r`. */
  lemma StripUnique(a: string, r: string, b: string)
    requires forall i :: 0 <= i < |a| ==> IsSpace(a[i])
    requires forall i :: 0 <= i < |b| ==> IsSpace(b[i])
    requires r != [] && !IsSpace(r[0]) && !IsSpace(r[|r| - 1])
    ensures Strip(a + r + b) == r
  {
    var s := a + r + b;
    var n := LeadingSpaces(s);
    assert s[|a|] == r[0];
    assert n == |a|;
    var q := Strip(s);
    assert s[|a| + |r| - 1] == r[|r| - 1];
    assert |q| == |r|;
    assert q == s[|a|..|a| + |r|] == r;
  }

  /** `strip` leaves a string without surrounding whitespace as it is. */
  lemma StripUnpadded(s: string)
    requires s != [] && !IsSpace(s[0]) && !IsSpace(s[|s| - 1])
    ensures Strip(s) == s
  {
  }

  /**
   * Removal of `prefix` when `s` starts with it (Python 3.9's
   * `s.removeprefix(prefix)`): what `lstrip(prefix)` is taken for.
   */
  function RemovePrefix(s: string, prefix: string): (r: string)
    ensures StartsWith(s, prefix) ==> s == prefix + r
    ensures !StartsWith(s, prefix) ==> r == s
  {
    if StartsWith(s, prefix) then s[|prefix|..] else s
  }

  /** Lower-casing changes nothing in a string without ASCII capitals. */
  lemma LowerNoCapitals(s: string)
    requires forall i :: 0 <= i < |s| ==> !('A' <= s[i] <= 'Z')
    ensures Lower(s) == s
  {
  }
}
