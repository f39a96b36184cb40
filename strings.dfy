/**
  The few string primitives of the host language that the translator relies on:
  left-to-right, non-overlapping substitution of every occurrence of a pattern
  (`str.replace`), upper-casing (`str.upper`, ASCII letters only) and joining.
 */
module Strings {

  /** `pat` is a prefix of `s`. */
  predicate StartsWith(s: string, pat: string) {
    |pat| <= |s| && s[..|pat|] == pat
  }

  /** `pat` occurs somewhere in `s`. */
  predicate Occurs(s: string, pat: string) {
    exists k :: 0 <= k <= |s| && StartsWith(s[k..], pat)
  }

  /** The empty-pattern case of `str.replace`: `rep` before every character and at the end. */
  function Interleave(s: string, rep: string): (r: string)
    ensures |r| == |s| + (|s| + 1) * |rep|
  {
    if s == [] then rep else rep + [s[0]] + Interleave(s[1..], rep)
  }

  /**
    `s.replace(pat, rep)`: scanning from the left, every occurrence of `pat` that does not
    overlap an earlier replaced one becomes `rep`; the rest of `s` is copied.
   */
  function ReplaceAll(s: string, pat: string, rep: string): (r: string)
    ensures pat != [] && |rep| == |pat| ==> |r| == |s|
    ensures pat != [] && |pat| <= |rep| ==> |s| <= |r|
    decreases |s|
  {
    if pat == [] then Interleave(s, rep)
    else if StartsWith(s, pat) then rep + ReplaceAll(s[|pat|..], pat, rep)
    else if s == [] then []
    else [s[0]] + ReplaceAll(s[1..], pat, rep)
  }

  /** ASCII upper-casing of one character. */
  function UpperChar(c: char): (u: char)
    ensures 'a' <= c <= 'z' ==> u as int == c as int - 32
    ensures !('a' <= c <= 'z') ==> u == c
  {
    if 'a' <= c <= 'z' then (c as int - 32) as char else c
  }

  /** `s.upper()` restricted to ASCII letters. */
  function Upper(s: string): (r: string)
    ensures |r| == |s|
    ensures forall i :: 0 <= i < |s| ==> r[i] == UpperChar(s[i])
  {
    if s == [] then [] else [UpperChar(s[0])] + Upper(s[1..])
  }

  /** `''.join(parts)`. */
  function Join(parts: seq<string>): string {
    if parts == [] then [] else parts[0] + Join(parts[1..])
  }

  lemma JoinAppend(parts: seq<string>, last: string)
    ensures Join(parts + [last]) == Join(parts) + last
  {
    if parts != [] {
      assert (parts + [last])[1..] == parts[1..] + [last];
      JoinAppend(parts[1..], last);
    } else {
      assert parts + [last] == [last];
    }
  }

  /** Replacing a pattern that does not occur leaves the string as it was. */
  lemma {:induction false} ReplaceAbsent(s: string, pat: string, rep: string)
    requires pat != [] && !Occurs(s, pat)
    ensures ReplaceAll(s, pat, rep) == s
    decreases |s|
  {
    assert StartsWith(s[0..], pat) ==> Occurs(s, pat);
    assert s[0..] == s;
    if s != [] {
      assert !Occurs(s[1..], pat) by {
        forall k | 0 <= k <= |s[1..]| ensures !StartsWith(s[1..][k..], pat) {
          assert s[1..][k..] == s[k + 1..];
        }
      }
      ReplaceAbsent(s[1..], pat, rep);
    }
  }

  /** A character that is neither in the input nor in the replacement is not in the result. */
  lemma {:induction false} ReplaceKeepsOut(s: string, pat: string, rep: string, c: char)
    requires c !in s && c !in rep
    ensures c !in ReplaceAll(s, pat, rep)
    decreases |s|
  {
    if pat == [] {
      InterleaveKeepsOut(s, rep, c);
    } else if StartsWith(s, pat) {
      ReplaceKeepsOut(s[|pat|..], pat, rep, c);
    } else if s != [] {
      ReplaceKeepsOut(s[1..], pat, rep, c);
    }
  }

  lemma {:induction false} InterleaveKeepsOut(s: string, rep: string, c: char)
    requires c !in s && c !in rep
    ensures c !in Interleave(s, rep)
  {
    if s != [] {
      InterleaveKeepsOut(s[1..], rep, c);
    }
  }

  /** Replacing a one-character pattern by text without that character removes it entirely. */
  lemma {:induction false} ReplaceRemovesChar(s: string, c: char, rep: string)
    requires c !in rep
    ensures c !in ReplaceAll(s, [c], rep)
    decreases |s|
  {
    if StartsWith(s, [c]) {
      ReplaceRemovesChar(s[1..], c, rep);
    } else if s != [] {
      assert s[0] != c by { assert s[..1] == [s[0]]; }
      ReplaceRemovesChar(s[1..], c, rep);
    }
  }

  /** A string shorter than the pattern cannot contain it. */
  lemma ShortAbsent(s: string, pat: string)
    requires |s| < |pat|
    ensures !Occurs(s, pat)
  {
  }

  /** A string lacking one of the pattern's characters cannot contain it. */
  lemma MissingCharAbsent(s: string, pat: string, j: nat)
    requires j < |pat| && pat[j] !in s
    ensures !Occurs(s, pat)
  {
    forall k | 0 <= k <= |s| ensures !StartsWith(s[k..], pat) {
      if |pat| <= |s| - k {
        assert s[k + j] in s;
        assert s[k..][..|pat|][j] == s[k + j];
      }
    }
  }

  /** Dropping the first character of a pattern-free string keeps it pattern-free. */
  lemma TailAbsent(s: string, pat: string)
    requires s != [] && !Occurs(s, pat)
    ensures !Occurs(s[1..], pat)
  {
    forall k | 0 <= k <= |s[1..]| ensures !StartsWith(s[1..][k..], pat) {
      assert s[1..][k..] == s[k + 1..];
      assert !StartsWith(s[k + 1..], pat);
    }
  }

  /**
    Gluing two pattern-free strings around a character the pattern does not use
    cannot create an occurrence.
   */
  lemma GlueAbsent(a: string, c: char, b: string, pat: string)
    requires pat != [] && c !in pat && !Occurs(a, pat) && !Occurs(b, pat)
    ensures !Occurs(a + [c] + b, pat)
  {
    var s := a + [c] + b;
    forall k | 0 <= k <= |s| ensures !StartsWith(s[k..], pat) {
      if k + |pat| <= |a| {
        assert !StartsWith(a[k..], pat);
        assert a[k..][..|pat|] == s[k..][..|pat|];
      } else if k > |a| {
        assert b[k - |a| - 1..] == s[k..];
        assert !StartsWith(b[k - |a| - 1..], pat);
      } else if |pat| <= |s| - k {
        assert s[k..][..|pat|][|a| - k] == c;
        assert pat[|a| - k] in pat;
      }
    }
  }

  /** A pattern whose first character recurs nowhere in it cannot start inside a
      pattern-free prefix that it follows. */
  lemma NoStartBefore(a: string, pat: string, b: string)
    requires a != [] && pat != [] && pat[0] !in pat[1..] && !Occurs(a, pat)
    ensures !StartsWith(a + pat + b, pat)
  {
    var s := a + pat + b;
    if |pat| <= |a| {
      assert !StartsWith(a[0..], pat);
      assert a[0..][..|pat|] == s[..|pat|];
    } else {
      assert s[..|pat|][|a|] == pat[0];
      assert pat[|a|] == pat[1..][|a| - 1];
    }
  }

  /**
    When the pattern's first character occurs nowhere else in it, the pattern cannot
    start inside a pattern-free prefix and run into the occurrence that follows it, so
    the first replacement is exactly that occurrence.
   */
  lemma {:induction false} ReplaceAtFirst(a: string, pat: string, b: string, x: string)
    requires pat != [] && pat[0] !in pat[1..] && !Occurs(a, pat)
    ensures ReplaceAll(a + pat + b, pat, x) == a + x + ReplaceAll(b, pat, x)
    decreases |a|
  {
    if a == [] {
      ReplaceAtStart(pat, b, x);
      assert a + pat + b == pat + b;
    } else {
      TailAbsent(a, pat);
      ReplaceAtFirst(a[1..], pat, b, x);
      ReplaceAfterChar(a, pat, b, x);
    }
  }

  /** One step of `ReplaceAtFirst`: the first character of the prefix is copied. */
  lemma ReplaceAfterChar(a: string, pat: string, b: string, x: string)
    requires a != [] && pat != [] && pat[0] !in pat[1..] && !Occurs(a, pat)
    requires ReplaceAll(a[1..] + pat + b, pat, x) == a[1..] + x + ReplaceAll(b, pat, x)
    ensures ReplaceAll(a + pat + b, pat, x) == a + x + ReplaceAll(b, pat, x)
  {
    calc {
      ReplaceAll(a + pat + b, pat, x);
    == { NoStartBefore(a, pat, b); ReplaceSkipsChar(a, pat, b, x); }
      [a[0]] + ReplaceAll(a[1..] + pat + b, pat, x);
    ==
      [a[0]] + (a[1..] + x + ReplaceAll(b, pat, x));
    == { ConsAssoc(a, x, ReplaceAll(b, pat, x)); }
      a + x + ReplaceAll(b, pat, x);
    }
  }

  lemma ReplaceAtStart(pat: string, b: string, x: string)
    requires pat != []
    ensures ReplaceAll(pat + b, pat, x) == x + ReplaceAll(b, pat, x)
  {
    var s := pat + b;
    assert s[..|pat|] == pat;
    assert s[|pat|..] == b;
  }

  lemma ReplaceSkipsChar(a: string, pat: string, b: string, x: string)
    requires a != [] && pat != [] && !StartsWith(a + pat + b, pat)
    ensures ReplaceAll(a + pat + b, pat, x) == [a[0]] + ReplaceAll(a[1..] + pat + b, pat, x)
  {
    var s := a + pat + b;
    assert s[0] == a[0];
    assert s[1..] == a[1..] + pat + b;
  }

  lemma ConsAssoc(a: string, x: string, r: string)
    requires a != []
    ensures [a[0]] + (a[1..] + x + r) == a + x + r
  {
    assert a == [a[0]] + a[1..];
  }
}
