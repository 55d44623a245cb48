/**
  Python string operations used by the PRD reviewer, restricted to ASCII:
  `lower`, `strip`, `lstrip`, `in`, `split('\n')[0]`, `replace`,
  `os.path.basename` and the decimal rendering of an `int` in an f-string.
 */
module Strings {

  // ---------------------------------------------------------------------------
  // Case folding (str.lower on ASCII)
  // ---------------------------------------------------------------------------

  function LowerChar(c: char): char {
    if 'A' <= c <= 'Z' then (c as int + 32) as char else c
  }

  /** `s.lower()`: ASCII capitals become lower-case letters, nothing else moves. */
  function Lower(s: string): (r: string)
    ensures |r| == |s|
    ensures forall i :: 0 <= i < |s| ==> r[i] == LowerChar(s[i])
  {
    seq(|s|, i requires 0 <= i < |s| => LowerChar(s[i]))
  }

  lemma LowerSlice(s: string, i: int, j: int)
    requires 0 <= i <= j <= |s|
    ensures Lower(s)[i..j] == Lower(s[i..j])
  {
  }

  // ---------------------------------------------------------------------------
  // Substring containment (Python's `p in s`)
  // ---------------------------------------------------------------------------

  predicate IsPrefix(p: string, s: string) {
    |p| <= |s| && s[..|p|] == p
  }

  /** `p` occurs in `s` starting at index `i`. */
  predicate OccursAt(s: string, p: string, i: int) {
    0 <= i <= |s| - |p| && s[i..i + |p|] == p
  }

  /** `p in s`: some window of `s` equals `p`; the empty string is in every string. */
  predicate Contains(s: string, p: string)
    ensures p == [] ==> Contains(s, p)
    ensures IsPrefix(p, s) ==> Contains(s, p)
    ensures Contains(s, p) ==> |p| <= |s|
  {
    assert p == [] || IsPrefix(p, s) ==> OccursAt(s, p, 0);
    exists i | 0 <= i <= |s| - |p| :: OccursAt(s, p, i)
  }

  /** An occurrence in a tail is an occurrence in the whole string, one place later. */
  lemma OccursInTail(s: string, p: string, i: int)
    requires |s| > 0 && OccursAt(s[1..], p, i)
    ensures OccursAt(s, p, i + 1)
  {
    assert s[1..][i..i + |p|] == s[i + 1..i + 1 + |p|];
  }

  /** Matching after lower-casing both sides accepts every case variant of a match. */
  lemma ContainsLower(s: string, p: string)
    requires Contains(s, p)
    ensures Contains(Lower(s), Lower(p))
  {
    var i :| 0 <= i <= |s| - |p| && OccursAt(s, p, i);
    LowerSlice(s, i, i + |p|);
    assert OccursAt(Lower(s), Lower(p), i);
  }

  // ---------------------------------------------------------------------------
  // Stripping (str.strip, str.lstrip(chars))
  // ---------------------------------------------------------------------------

  /** The ASCII characters for which Python's `str.isspace` holds. */
  predicate IsSpace(c: char) {
    c == ' ' || 9 <= c as int <= 13 || 28 <= c as int <= 31
  }

  /** Removes the longest prefix whose characters all satisfy `drop`. */
  function DropWhile(s: string, drop: char -> bool): (r: string)
    ensures |r| <= |s| && r == s[|s| - |r|..]
    ensures forall k :: 0 <= k < |s| - |r| ==> drop(s[k])
    ensures r == [] || !drop(r[0])
  {
    if |s| > 0 && drop(s[0]) then DropWhile(s[1..], drop) else s
  }

  /** Removes the longest suffix whose characters all satisfy `drop`. */
  function DropWhileRight(s: string, drop: char -> bool): (r: string)
    ensures |r| <= |s| && r == s[..|r|]
    ensures forall k :: |r| <= k < |s| ==> drop(s[k])
    ensures r == [] || !drop(r[|r| - 1])
  {
    if |s| > 0 && drop(s[|s| - 1]) then DropWhileRight(s[..|s| - 1], drop) else s
  }

  /** `s.strip()`: whitespace removed from both ends. */
  function Strip(s: string): (r: string)
    ensures |r| <= |s|
    ensures r == [] || (!IsSpace(r[0]) && !IsSpace(r[|r| - 1]))
  {
    DropWhileRight(DropWhile(s, IsSpace), IsSpace)
  }

  /** The stripped string is the input with a whitespace-only run cut from each end. */
  lemma StripTrims(s: string)
    ensures var r := Strip(s);
            exists i, j :: 0 <= i <= j <= |s| && r == s[i..j] &&
              (forall k :: 0 <= k < i ==> IsSpace(s[k])) && (forall k :: j <= k < |s| ==> IsSpace(s[k]))
  {
    var t := DropWhile(s, IsSpace);
    var r := DropWhileRight(t, IsSpace);
    TrimWindow(s, t, r);
  }

  /** A prefix `r` of a suffix `t` of `s`, with only whitespace cut on either side, is a window of `s`. */
  lemma TrimWindow(s: string, t: string, r: string)
    requires |t| <= |s| && t == s[|s| - |t|..] && forall k :: 0 <= k < |s| - |t| ==> IsSpace(s[k])
    requires |r| <= |t| && r == t[..|r|] && forall k :: |r| <= k < |t| ==> IsSpace(t[k])
    ensures exists i, j :: 0 <= i <= j <= |s| && r == s[i..j] &&
              (forall k :: 0 <= k < i ==> IsSpace(s[k])) && (forall k :: j <= k < |s| ==> IsSpace(s[k]))
  {
    var i := |s| - |t|;
    var j := i + |r|;
    assert r == s[i..j];
    forall k | j <= k < |s| ensures IsSpace(s[k]) {
      assert s[k] == t[k - i];
    }
  }

  lemma {:induction false} DropWhileAllDropped(w: string, t: string, drop: char -> bool)
    requires forall k :: 0 <= k < |w| ==> drop(w[k])
    requires t == [] || !drop(t[0])
    ensures DropWhile(w + t, drop) == t
    decreases |w|
  {
    if w != [] {
      assert (w + t)[0] == w[0] && (w + t)[1..] == w[1..] + t;
      DropWhileAllDropped(w[1..], t, drop);
    } else {
      assert w + t == t;
    }
  }

  lemma DropWhileRightKept(t: string, drop: char -> bool)
    requires t == [] || !drop(t[|t| - 1])
    ensures DropWhileRight(t, drop) == t
  {
  }

  /**
    Stripping a string that has whitespace only in front of a part without
    surrounding whitespace gives exactly that part.
   */
  lemma StripLeadingSpace(w: string, t: string)
    requires forall k :: 0 <= k < |w| ==> IsSpace(w[k])
    requires t == [] || (!IsSpace(t[0]) && !IsSpace(t[|t| - 1]))
    ensures Strip(w + t) == t
  {
    DropWhileAllDropped(w, t, IsSpace);
    DropWhileRightKept(t, IsSpace);
  }

  /** `s.lstrip(c)`: every leading occurrence of `c` removed. */
  function LStripChar(s: string, c: char): (r: string)
    ensures |r| <= |s| && r == s[|s| - |r|..]
    ensures forall k :: 0 <= k < |s| - |r| ==> s[k] == c
    ensures r == [] || r[0] != c
  {
    if |s| > 0 && s[0] == c then LStripChar(s[1..], c) else s
  }

  lemma {:induction false} LStripCharAll(w: string, t: string, c: char)
    requires forall k :: 0 <= k < |w| ==> w[k] == c
    requires t == [] || t[0] != c
    ensures LStripChar(w + t, c) == t
    decreases |w|
  {
    if w != [] {
      assert (w + t)[1..] == w[1..] + t;
      LStripCharAll(w[1..], t, c);
    } else {
      assert w + t == t;
    }
  }

  // ---------------------------------------------------------------------------
  // Lines and paths
  // ---------------------------------------------------------------------------

  /** `s.split('\n')[0]`: the text before the first newline (all of `s` if none). */
  function FirstLine(s: string): (r: string)
    ensures IsPrefix(r, s) && '\n' !in r
    ensures |r| < |s| ==> s[|r|] == '\n'
  {
    if s == [] || s[0] == '\n' then [] else [s[0]] + FirstLine(s[1..])
  }

  lemma {:induction false} FirstLineOf(line: string, rest: string)
    requires '\n' !in line
    ensures FirstLine(line + "\n" + rest) == line
  {
    var s := line + "\n" + rest;
    if line != [] {
      assert s[0] == line[0] && s[1..] == line[1..] + "\n" + rest;
      FirstLineOf(line[1..], rest);
    }
  }

  /** `os.path.basename(p)` for POSIX paths: the text after the last `/`. */
  function Basename(p: string): (r: string)
    ensures |r| <= |p| && r == p[|p| - |r|..]
    ensures '/' !in r
    ensures |r| < |p| ==> p[|p| - |r| - 1] == '/'
  {
    if p == [] || p[|p| - 1] == '/' then [] else Basename(p[..|p| - 1]) + [p[|p| - 1]]
  }

  lemma {:induction false} BasenameAfterSlash(dir: string, name: string)
    requires '/' !in name
    ensures Basename(dir + "/" + name) == name
  {
    var p := dir + "/" + name;
    if name != [] {
      var n := |name|;
      assert p[|p| - 1] == name[n - 1];
      assert p[..|p| - 1] == dir + "/" + name[..n - 1];
      BasenameAfterSlash(dir, name[..n - 1]);
      assert name == name[..n - 1] + [name[n - 1]];
    }
  }

  // ---------------------------------------------------------------------------
  // Replacement (str.replace)
  // ---------------------------------------------------------------------------

  /** `s.replace(from, to)` for single characters: a character-wise rewrite. */
  function ReplaceChar(s: string, from: char, to: char): (r: string)
    ensures |r| == |s|
    ensures forall i :: 0 <= i < |s| ==> r[i] == (if s[i] == from then to else s[i])
  {
    if s == [] then [] else [if s[0] == from then to else s[0]] + ReplaceChar(s[1..], from, to)
  }

  /**
    `s.replace(pat, '')` for a non-empty pattern: scanning left to right, every
    non-overlapping occurrence of `pat` is cut out.
   */
  function RemoveAll(s: string, pat: string): (r: string)
    requires pat != []
    ensures |r| <= |s|
    decreases |s|
  {
    if |s| < |pat| then s
    else if s[..|pat|] == pat then RemoveAll(s[|pat|..], pat)
    else [s[0]] + RemoveAll(s[1..], pat)
  }

  /** Removing a pattern that does not occur leaves the text unchanged. */
  lemma {:induction false} RemoveAllAbsent(s: string, pat: string)
    requires pat != [] && !Contains(s, pat)
    ensures RemoveAll(s, pat) == s
    decreases |s|
  {
    if |s| >= |pat| {
      assert !OccursAt(s, pat, 0);
      assert !Contains(s[1..], pat) by {
        if Contains(s[1..], pat) {
          var i :| 0 <= i <= |s[1..]| - |pat| && OccursAt(s[1..], pat, i);
          OccursInTail(s, pat, i);
        }
      }
      RemoveAllAbsent(s[1..], pat);
      assert [s[0]] + s[1..] == s;
    }
  }

  /**
    The scan never matches `.md` across the start of an occurrence: text free
    of `.md` followed by `.md` loses exactly that occurrence, and the rest of
    the string is processed independently (interior occurrences go too).
   */
  lemma {:induction false} RemoveMdAfterClean(a: string, b: string)
    requires !Contains(a, ".md")
    ensures RemoveAll(a + ".md" + b, ".md") == a + RemoveAll(b, ".md")
    decreases |a|
  {
    if a == [] {
      var s := a + ".md" + b;
      assert s == ".md" + b;
      assert s[..3] == ".md" && s[3..] == b;
    } else {
      CleanTail(a);
      RemoveMdAfterClean(a[1..], b);
      CleanHeadIsNoMatch(a, b);
      var s := a + ".md" + b;
      assert s[1..] == a[1..] + ".md" + b;
      RemoveSkipStep(s, ".md", a, RemoveAll(b, ".md"));
    }
  }

  /** One character before a pattern that does not start there is kept. */
  lemma RemoveSkipStep(s: string, pat: string, a: string, rest: string)
    requires pat != [] && |s| >= |pat| && s[..|pat|] != pat
    requires a != [] && s[0] == a[0] && RemoveAll(s[1..], pat) == a[1..] + rest
    ensures RemoveAll(s, pat) == a + rest
  {
    RemoveAllSkip(s, pat);
    ConsSplit(a, rest);
  }

  lemma ConsSplit(a: string, rest: string)
    requires a != []
    ensures [a[0]] + (a[1..] + rest) == a + rest
  {
    assert a == [a[0]] + a[1..];
  }

  /** Where the pattern does not start, the scan keeps one character and moves on. */
  lemma RemoveAllSkip(s: string, pat: string)
    requires pat != [] && |s| >= |pat| && s[..|pat|] != pat
    ensures RemoveAll(s, pat) == [s[0]] + RemoveAll(s[1..], pat)
  {
  }

  lemma CleanHeadIsNoMatch(a: string, b: string)
    requires a != [] && !Contains(a, ".md")
    ensures (a + ".md" + b)[..3] != ".md"
  {
    var s := a + ".md" + b;
    if |a| >= 3 {
      assert !OccursAt(a, ".md", 0);
      assert s[..3] == a[..3];
    } else if |a| == 1 {
      assert s[1] == '.';
      assert s[..3][1] == s[1];
    } else {
      assert s[2] == '.';
      assert s[..3][2] == s[2];
    }
  }

  lemma CleanTail(a: string)
    requires a != [] && !Contains(a, ".md")
    ensures !Contains(a[1..], ".md")
  {
    if Contains(a[1..], ".md") {
      var i :| 0 <= i <= |a[1..]| - 3 && OccursAt(a[1..], ".md", i);
      OccursInTail(a, ".md", i);
    }
  }

  // ---------------------------------------------------------------------------
  // Decimal rendering of integers (f-string `{n}`)
  // ---------------------------------------------------------------------------

  function DigitChar(d: int): char
    requires 0 <= d < 10
  {
    "0123456789"[d]
  }

  predicate IsDigit(c: char) {
    '0' <= c <= '9'
  }

  function DigitValue(c: char): int
    requires IsDigit(c)
  {
    c as int - '0' as int
  }

  /** Decimal digits of `n`, most significant first, without leading zeros. */
  function NatToString(n: nat): (r: string)
    ensures |r| > 0
    ensures forall i :: 0 <= i < |r| ==> IsDigit(r[i])
    ensures r[0] == '0' ==> n == 0 && r == "0"
  {
    if n < 10 then [DigitChar(n)] else NatToString(n / 10) + [DigitChar(n % 10)]
  }

  /** Reads back a string of decimal digits. */
  function ParseNat(s: string): nat
    requires forall i :: 0 <= i < |s| ==> IsDigit(s[i])
  {
    if s == [] then 0 else ParseNat(s[..|s| - 1]) * 10 + DigitValue(s[|s| - 1])
  }

  lemma {:induction false} ParseNatToString(n: nat)
    ensures ParseNat(NatToString(n)) == n
  {
    var r := NatToString(n);
    if n >= 10 {
      assert r[..|r| - 1] == NatToString(n / 10);
      ParseNatToString(n / 10);
    }
  }

  /** Python's `str(n)`: a minus sign before the digits of a negative number. */
  function IntToString(n: int): (r: string)
    ensures |r| > 0
    ensures n >= 0 ==> r == NatToString(n)
    ensures n < 0 ==> r == "-" + NatToString(-n)
  {
    if n < 0 then "-" + NatToString(-n) else NatToString(n)
  }

  function ParseInt(s: string): int
    requires |s| > 0
    requires s[0] == '-' ==> forall i :: 1 <= i < |s| ==> IsDigit(s[i])
    requires s[0] != '-' ==> forall i :: 0 <= i < |s| ==> IsDigit(s[i])
  {
    if s[0] == '-' then -(ParseNat(s[1..]) as int) else ParseNat(s)
  }

  /** Rendering an integer in decimal loses nothing: it reads back to itself. */
  lemma IntToStringRoundTrip(n: int)
    ensures ParseInt(IntToString(n)) == n
  {
    var r := IntToString(n);
    if n < 0 {
      assert r[1..] == NatToString(-n);
      ParseNatToString(-n);
    } else {
      ParseNatToString(n);
    }
  }
}
