/**
 * The Python string operations the repository relies on, as functions on
 * `seq<char>`, with the facts about them that the rest of the model uses.
 */
module Text {

  // ---------------------------------------------------------------------------
  // Prefixes, suffixes and the `in` operator on strings
  // ---------------------------------------------------------------------------

  /** `s.startswith(p)` */
  predicate StartsWith(s: string, p: string) {
    |p| <= |s| && s[..|p|] == p
  }

  /** `s.endswith(p)` */
  predicate EndsWith(s: string, p: string) {
    |p| <= |s| && s[|s| - |p|..] == p
  }

  /** `t in s` for two strings: t occurs somewhere in s (the empty string occurs everywhere). */
  predicate Contains(s: string, t: string)
    decreases |s|
  {
    StartsWith(s, t) || (|s| > 0 && Contains(s[1..], t))
  }

  /** An occurrence of t in s at index i. */
  ghost predicate OccursAt(s: string, t: string, i: int) {
    0 <= i && i + |t| <= |s| && s[i..i + |t|] == t
  }

  /** `in` means: there is an index where t occurs. */
  lemma {:induction false} ContainsOccurs(s: string, t: string)
    ensures Contains(s, t) <==> exists i :: OccursAt(s, t, i)
    decreases |s|
  {
    if Contains(s, t) {
      if StartsWith(s, t) {
        assert OccursAt(s, t, 0);
      } else {
        ContainsOccurs(s[1..], t);
        var i :| OccursAt(s[1..], t, i);
        assert s[1..][i..i + |t|] == s[i + 1..i + 1 + |t|];
        assert OccursAt(s, t, i + 1);
      }
    }
    if exists i :: OccursAt(s, t, i) {
      var i :| OccursAt(s, t, i);
      if i > 0 {
        assert s[1..][i - 1..i - 1 + |t|] == s[i..i + |t|];
        assert OccursAt(s[1..], t, i - 1);
        ContainsOccurs(s[1..], t);
      } else {
        assert StartsWith(s, t);
      }
    }
  }

  /** An occurrence in a prefix is an occurrence in the whole string. */
  lemma {:induction false} ContainsAppend(a: string, r: string, t: string)
    requires Contains(a, t)
    ensures Contains(a + r, t)
    decreases |a|
  {
    if StartsWith(a, t) {
      assert (a + r)[..|t|] == a[..|t|];
    } else {
      ContainsAppend(a[1..], r, t);
      assert (a + r)[1..] == a[1..] + r;
    }
  }

  /** An occurrence in a suffix is an occurrence in the whole string. */
  lemma {:induction false} ContainsPrepend(a: string, m: string, t: string)
    requires Contains(m, t)
    ensures Contains(a + m, t)
    decreases |a|
  {
    if a != [] {
      ContainsPrepend(a[1..], m, t);
      assert (a + m)[1..] == a[1..] + m;
    } else {
      assert a + m == m;
    }
  }

  /** The middle part of a concatenation occurs in it. */
  lemma ContainsInfix(a: string, b: string, c: string)
    ensures Contains(a + b + c, b)
  {
    assert StartsWith(b + c, b);
    ContainsPrepend(a, b + c, b);
    assert a + b + c == a + (b + c);
  }

  /** `in` is transitive: an occurrence inside an occurrence is an occurrence. */
  lemma {:induction false} ContainsTransitive(s: string, t: string, u: string)
    requires Contains(s, t) && Contains(t, u)
    ensures Contains(s, u)
    decreases |s|
  {
    if StartsWith(s, t) {
      ContainsAppend(t, s[|t|..], u);
      assert t + s[|t|..] == s;
    } else {
      ContainsTransitive(s[1..], t, u);
    }
  }

  /** Every character of an occurring string is a character of the string it occurs in. */
  lemma {:induction false} ContainsChars(s: string, t: string)
    requires Contains(s, t)
    ensures forall k :: 0 <= k < |t| ==> t[k] in s
    decreases |s|
  {
    if StartsWith(s, t) {
      forall k | 0 <= k < |t| ensures t[k] in s {
        assert t[k] == s[k];
      }
    } else {
      ContainsChars(s[1..], t);
      forall k | 0 <= k < |t| ensures t[k] in s {
        assert t[k] in s[1..];
      }
    }
  }

  // ---------------------------------------------------------------------------
  // lower() and strip()
  // ---------------------------------------------------------------------------

  predicate IsUpper(c: char) {
    'A' <= c <= 'Z'
  }

  /** `c.lower()` for ASCII letters; every other character is left as it is. */
  function LowerChar(c: char): char {
    if IsUpper(c) then (c as int + 32) as char else c
  }

  /** `s.lower()` (ASCII case mapping). */
  function Lower(s: string): string {
    seq(|s|, i requires 0 <= i < |s| => LowerChar(s[i]))
  }

  /** A lower-cased string has no upper-case letter. */
  lemma LowerHasNoUpper(s: string)
    ensures forall c :: c in Lower(s) ==> !IsUpper(c)
  {
    forall c | c in Lower(s) ensures !IsUpper(c) {
      var i :| 0 <= i < |Lower(s)| && Lower(s)[i] == c;
    }
  }

  /** Python's `str.isspace()` for one character. */
  predicate IsSpace(c: char) {
    || c == ' '
    || '\t' <= c <= '\r'
    || '\U{1C}' <= c <= '\U{1F}'
    || c == '\U{85}'
    || c == '\U{A0}'
    || c == '\U{1680}'
    || '\U{2000}' <= c <= '\U{200A}'
    || c == '\U{2028}'
    || c == '\U{2029}'
    || c == '\U{202F}'
    || c == '\U{205F}'
    || c == '\U{3000}'
  }

  ghost predicate AllSpace(s: string) {
    forall i :: 0 <= i < |s| ==> IsSpace(s[i])
  }

  /** `s.lstrip()` */
  function StripStart(s: string): (r: string)
    ensures |r| <= |s| && r == s[|s| - |r|..]
    ensures forall i :: 0 <= i < |s| - |r| ==> IsSpace(s[i])
    ensures |r| == 0 || !IsSpace(r[0])
    decreases |s|
  {
    if |s| > 0 && IsSpace(s[0]) then
      var r := StripStart(s[1..]);
      assert s[1..][|s| - 1 - |r|..] == s[|s| - |r|..];
      r
    else s
  }

  /** `s.rstrip()` */
  function StripEnd(s: string): (r: string)
    ensures |r| <= |s| && r == s[..|r|]
    ensures forall i :: |r| <= i < |s| ==> IsSpace(s[i])
    ensures |r| == 0 || !IsSpace(r[|r| - 1])
    decreases |s|
  {
    if |s| > 0 && IsSpace(s[|s| - 1]) then StripEnd(s[..|s| - 1]) else s
  }

  /** `s.strip()`: what remains has no white space at either end. */
  function Strip(s: string): (r: string)
    ensures |r| == 0 || (!IsSpace(r[0]) && !IsSpace(r[|r| - 1]))
  {
    StripEnd(StripStart(s))
  }

  /** lstrip() only removes white space: s is blanks, then lstrip(s). */
  lemma StripStartSplits(s: string) returns (a: string)
    ensures AllSpace(a) && s == a + StripStart(s)
  {
    var x := StripStart(s);
    a := s[..|s| - |x|];
    forall i | 0 <= i < |a| ensures IsSpace(a[i]) {
      assert a[i] == s[i];
    }
    assert s == a + x;
  }

  /** rstrip() only removes white space: s is rstrip(s), then blanks. */
  lemma StripEndSplits(s: string) returns (b: string)
    ensures AllSpace(b) && s == StripEnd(s) + b
  {
    var m := StripEnd(s);
    b := s[|m|..];
    forall i | 0 <= i < |b| ensures IsSpace(b[i]) {
      assert b[i] == s[|m| + i];
    }
    assert s == m + b;
  }

  /** strip() only removes white space: s is blanks, then strip(s), then blanks. */
  lemma StripDecomposes(s: string)
    returns (a: string, b: string)
    ensures AllSpace(a) && AllSpace(b) && s == a + Strip(s) + b
  {
    a := StripStartSplits(s);
    b := StripEndSplits(StripStart(s));
    AppendAssociates(a, Strip(s), b);
  }

  lemma AppendAssociates(a: string, m: string, b: string)
    ensures a + (m + b) == a + m + b
  {
  }

  /** An occurrence of t in blanks + m + blanks lies inside m when t has non-blank ends. */
  lemma OccurrenceInsideBlanks(a: string, m: string, b: string, t: string, i: int)
    requires AllSpace(a) && AllSpace(b)
    requires |t| > 0 && !IsSpace(t[0]) && !IsSpace(t[|t| - 1])
    requires OccursAt(a + m + b, t, i)
    ensures OccursAt(m, t, i - |a|)
  {
    var s := a + m + b;
    assert s[i] == t[0];
    assert s[i + |t| - 1] == t[|t| - 1];
    assert m[i - |a|..i - |a| + |t|] == s[i..i + |t|];
  }

  /**
   * Whether a string that starts and ends with a non-blank character occurs
   * in a string does not depend on blanks around that string.
   */
  lemma ContainsIgnoresBlankEnds(a: string, m: string, b: string, t: string)
    requires AllSpace(a) && AllSpace(b)
    requires |t| > 0 && !IsSpace(t[0]) && !IsSpace(t[|t| - 1])
    ensures Contains(a + m + b, t) <==> Contains(m, t)
  {
    if Contains(m, t) {
      ContainsAppend(m, b, t);
      ContainsPrepend(a, m + b, t);
      assert a + (m + b) == a + m + b;
    }
    if Contains(a + m + b, t) {
      ContainsOccurs(a + m + b, t);
      var i :| OccursAt(a + m + b, t, i);
      OccurrenceInsideBlanks(a, m, b, t, i);
      ContainsOccurs(m, t);
    }
  }

  /** Lower-casing maps blanks to blanks. */
  lemma LowerKeepsBlanks(s: string)
    requires AllSpace(s)
    ensures AllSpace(Lower(s))
  {
  }

  /** Lower-casing a string without upper-case letters changes nothing. */
  lemma LowerOfLowerCase(s: string)
    requires forall k :: 0 <= k < |s| ==> !IsUpper(s[k])
    ensures Lower(s) == s
  {
  }

  lemma LowerConcat(a: string, b: string)
    ensures Lower(a + b) == Lower(a) + Lower(b)
  {
  }

  /**
   * `t in s.strip().lower()` is the same test as `t in s.lower()` whenever t
   * begins and ends with a non-blank character: where the match is found does not
   * depend on surrounding white space.
   */
  lemma ContainsStrippedLower(s: string, t: string)
    requires |t| > 0 && !IsSpace(t[0]) && !IsSpace(t[|t| - 1])
    ensures Contains(Lower(Strip(s)), t) <==> Contains(Lower(s), t)
  {
    var a, b := StripDecomposes(s);
    LowerConcat(a + Strip(s), b);
    LowerConcat(a, Strip(s));
    LowerKeepsBlanks(a);
    LowerKeepsBlanks(b);
    ContainsIgnoresBlankEnds(Lower(a), Lower(Strip(s)), Lower(b), t);
  }

  // ---------------------------------------------------------------------------
  // join, split, replace, slicing and str(int)
  // ---------------------------------------------------------------------------

  /** `sep.join(parts)` */
  function Join(parts: seq<string>, sep: string): string
    decreases |parts|
  {
    if |parts| == 0 then ""
    else if |parts| == 1 then parts[0]
    else Join(parts[..|parts| - 1], sep) + sep + parts[|parts| - 1]
  }

  /** Every joined part occurs in the joined string. */
  lemma {:induction false} JoinContainsPart(parts: seq<string>, sep: string, k: nat)
    requires k < |parts|
    ensures Contains(Join(parts, sep), parts[k])
    decreases |parts|
  {
    var n := |parts|;
    if n == 1 {
      assert Join(parts, sep) == [] + parts[0] + [];
      ContainsInfix([], parts[0], []);
    } else if k == n - 1 {
      assert Join(parts, sep) == (Join(parts[..n - 1], sep) + sep) + parts[k] + [];
      ContainsInfix(Join(parts[..n - 1], sep) + sep, parts[k], []);
    } else {
      JoinContainsPart(parts[..n - 1], sep, k);
      assert parts[..n - 1][k] == parts[k];
      ContainsAppend(Join(parts[..n - 1], sep), sep + parts[n - 1], parts[k]);
      assert Join(parts[..n - 1], sep) + (sep + parts[n - 1]) == Join(parts, sep);
    }
  }

  /** `s.split(c)` for a one-character separator. */
  function Split(s: string, c: char): (r: seq<string>)
    ensures |r| >= 1
    ensures forall k :: 0 <= k < |r| ==> c !in r[k]
    decreases |s|
  {
    if |s| == 0 then [""]
    else
      var r := Split(s[..|s| - 1], c);
      if s[|s| - 1] == c then r + [""]
      else r[..|r| - 1] + [r[|r| - 1] + [s[|s| - 1]]]
  }

  /** One more part: the join grows by the separator and the part. */
  lemma JoinAppend(parts: seq<string>, sep: string, p: string)
    requires |parts| >= 1
    ensures Join(parts + [p], sep) == Join(parts, sep) + sep + p
  {
    assert (parts + [p])[..|parts|] == parts;
  }

  /** A non-empty list of parts is its prefix followed by its last part. */
  lemma PartsInitAndLast(parts: seq<string>)
    requires |parts| >= 1
    ensures parts[..|parts| - 1] + [parts[|parts| - 1]] == parts
  {
  }

  /** A separator at the end opens an empty last piece. */
  lemma SplitAtSeparator(init: string, c: char)
    ensures Split(init + [c], c) == Split(init, c) + [""]
  {
    assert (init + [c])[..|init|] == init;
  }

  /** Any other character at the end extends the last piece. */
  lemma SplitOther(init: string, c: char, x: char)
    requires x != c
    ensures var r := Split(init, c); Split(init + [x], c) == r[..|r| - 1] + [r[|r| - 1] + [x]]
  {
    assert (init + [x])[..|init|] == init;
  }

  lemma JoinSplitAtSeparator(init: string, c: char)
    requires Join(Split(init, c), [c]) == init
    ensures Join(Split(init + [c], c), [c]) == init + [c]
  {
    SplitAtSeparator(init, c);
    JoinAppend(Split(init, c), [c], "");
    assert init + [c] + "" == init + [c];
  }

  lemma JoinSplitOther(init: string, c: char, x: char)
    requires x != c && Join(Split(init, c), [c]) == init
    ensures Join(Split(init + [x], c), [c]) == init + [x]
  {
    var r := Split(init, c);
    var front, last := r[..|r| - 1], r[|r| - 1];
    SplitOther(init, c, x);
    if |r| == 1 {
      assert Join(front + [last + [x]], [c]) == last + [x];
    } else {
      PartsInitAndLast(r);
      JoinAppend(front, [c], last);
      JoinAppend(front, [c], last + [x]);
      AppendAssociates(Join(front, [c]) + [c], last, [x]);
    }
  }

  /** A non-empty string is its prefix followed by its last character. */
  lemma StringInitAndLast(s: string)
    requires |s| > 0
    ensures s[..|s| - 1] + [s[|s| - 1]] == s
  {
  }

  /** Joining the pieces of a split with the separator gives the string back. */
  lemma {:induction false} JoinSplit(s: string, c: char)
    ensures Join(Split(s, c), [c]) == s
    decreases |s|
  {
    if |s| > 0 {
      var init, x := s[..|s| - 1], s[|s| - 1];
      JoinSplit(init, c);
      StringInitAndLast(s);
      if x == c {
        JoinSplitAtSeparator(init, c);
      } else {
        JoinSplitOther(init, c, x);
      }
    }
  }

  /** A string without the separator splits into itself alone. */
  lemma {:induction false} SplitWithoutSeparator(s: string, c: char)
    requires c !in s
    ensures Split(s, c) == [s]
    decreases |s|
  {
    if |s| > 0 {
      SplitWithoutSeparator(s[..|s| - 1], c);
      assert s[..|s| - 1] + [s[|s| - 1]] == s;
    }
  }

  /** After the last separator, the rest of the string is the last piece. */
  lemma {:induction false} SplitLastPiece(s: string, c: char, rest: string)
    requires c !in rest
    ensures var r := Split(s + [c] + rest, c); r[|r| - 1] == rest
    decreases |rest|
  {
    if |rest| == 0 {
      assert s + [c] + rest == s + [c];
      assert (s + [c])[..|s|] == s;
    } else {
      var init := rest[..|rest| - 1];
      SplitLastPiece(s, c, init);
      assert (s + [c] + rest)[..|s + [c] + rest| - 1] == s + [c] + init;
      assert init + [rest[|rest| - 1]] == rest;
    }
  }

  /** `s.replace(pat, '')`: every non-overlapping occurrence, scanned left to right, is removed. */
  function RemoveAll(s: string, pat: string): (r: string)
    requires |pat| > 0
    ensures |r| <= |s|
    ensures forall ch :: ch in r ==> ch in s
    decreases |s|
  {
    if |s| == 0 then ""
    else if StartsWith(s, pat) then RemoveAll(s[|pat|..], pat)
    else [s[0]] + RemoveAll(s[1..], pat)
  }

  /** Removing a pattern that does not occur changes nothing. */
  lemma {:induction false} RemoveAllAbsent(s: string, pat: string)
    requires |pat| > 0 && !Contains(s, pat)
    ensures RemoveAll(s, pat) == s
    decreases |s|
  {
    if |s| > 0 {
      RemoveAllAbsent(s[1..], pat);
    }
  }

  /** An occurrence at the front is removed, and the scan goes on after it. */
  lemma RemoveAllDropsLeading(pat: string, s: string)
    requires |pat| > 0
    ensures RemoveAll(pat + s, pat) == RemoveAll(s, pat)
  {
    assert StartsWith(pat + s, pat) by {
      assert (pat + s)[..|pat|] == pat;
    }
    assert (pat + s)[|pat|..] == s;
  }

  /**
   * A head in which no occurrence can start (it lacks the pattern's first
   * character) is kept as it is, and the rest is scanned on its own.
   */
  lemma {:induction false} RemoveAllKeepsHead(head: string, s: string, pat: string)
    requires |pat| > 0 && pat[0] !in head
    ensures RemoveAll(head + s, pat) == head + RemoveAll(s, pat)
    decreases |head|
  {
    if head == [] {
      assert head + s == s;
    } else {
      var t := head + s;
      assert t[0] == head[0] && head[0] != pat[0];
      assert !StartsWith(t, pat) by {
        if |pat| <= |t| {
          assert t[..|pat|][0] != pat[0];
        }
      }
      assert t[1..] == head[1..] + s;
      calc {
        RemoveAll(t, pat);
        [t[0]] + RemoveAll(t[1..], pat);
        { RemoveAllKeepsHead(head[1..], s, pat); }
        [head[0]] + (head[1..] + RemoveAll(s, pat));
        { assert [head[0]] + head[1..] == head; }
        head + RemoveAll(s, pat);
      }
    }
  }

  /** `s[:n]` for n >= 0. */
  function Prefix(s: string, n: nat): (r: string)
    ensures |r| == if n < |s| then n else |s|
    ensures StartsWith(s, r)
  {
    if n < |s| then s[..n] else s
  }

  function DigitChar(d: nat): char
    requires d < 10
  {
    ('0' as int + d) as char
  }

  /** `str(n)` for a non-negative integer. */
  function NatToString(n: nat): (r: string)
    ensures |r| >= 1
    ensures n >= 10 ==> |r| >= 2
    decreases n
  {
    if n < 10 then [DigitChar(n)] else NatToString(n / 10) + [DigitChar(n % 10)]
  }

  /** Different numbers have different decimal renderings. */
  lemma {:induction false} NatToStringInjective(a: nat, b: nat)
    requires NatToString(a) == NatToString(b)
    ensures a == b
    decreases a
  {
    var s := NatToString(a);
    if a < 10 && b < 10 {
      assert DigitChar(a) == s[0] == DigitChar(b);
    } else if a >= 10 && b >= 10 {
      assert DigitChar(a % 10) == s[|s| - 1] == DigitChar(b % 10);
      assert NatToString(a / 10) == s[..|s| - 1] == NatToString(b / 10);
      NatToStringInjective(a / 10, b / 10);
      assert a == 10 * (a / 10) + a % 10;
      assert b == 10 * (b / 10) + b % 10;
    }
  }
}
