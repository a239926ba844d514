/**
 * The handful of Python string and list built-ins that the command handlers
 * use: `str.replace`, `str.join`, `str.lower` (on ASCII), the substring test
 * `needle in haystack`, slicing `xs[:n]`, and formatting an integer with `{n}`.
 */
module PyStr {

  /** `s.replace(pat, rep)` for a non-empty pattern: occurrences are found
      from the left and replaced without overlapping. */
  function Replace(s: string, pat: string, rep: string): string
    requires |pat| > 0
    decreases |s|
  {
    if |s| < |pat| then s
    else if s[..|pat|] == pat then rep + Replace(s[|pat|..], pat, rep)
    else [s[0]] + Replace(s[1..], pat, rep)
  }

  /** `needle in haystack` on strings. */
  predicate Contains(haystack: string, needle: string)
    decreases |haystack|
  {
    if |haystack| < |needle| then false
    else haystack[..|needle|] == needle || Contains(haystack[1..], needle)
  }

  /** `needle` occurs in `haystack` starting at index `i`. */
  predicate OccursAt(haystack: string, needle: string, i: int)
  {
    0 <= i && i + |needle| <= |haystack| && haystack[i..i + |needle|] == needle
  }

  /** The number of times `c` appears in `s`. */
  function Count(s: string, c: char): nat
  {
    if s == [] then 0 else (if s[0] == c then 1 else 0) + Count(s[1..], c)
  }

  /** `xs[:n]` for a non-negative `n`. */
  function Take<T>(xs: seq<T>, n: nat): (r: seq<T>)
    ensures |r| <= n && r <= xs
    ensures |xs| <= n ==> r == xs
    ensures n <= |xs| ==> |r| == n
  {
    if |xs| <= n then xs else xs[..n]
  }

  /** `sep.join(parts)`. */
  function Join(parts: seq<string>, sep: string): string
  {
    if |parts| == 0 then ""
    else if |parts| == 1 then parts[0]
    else parts[0] + sep + Join(parts[1..], sep)
  }

  /** `c.lower()` restricted to ASCII letters. */
  function LowerChar(c: char): char
  {
    if 'A' <= c <= 'Z' then (c as int + 32) as char else c
  }

  /** `s.lower()` restricted to ASCII letters. */
  function Lower(s: string): (r: string)
    ensures |r| == |s|
    ensures forall i :: 0 <= i < |s| ==> r[i] == LowerChar(s[i])
  {
    if s == [] then [] else [LowerChar(s[0])] + Lower(s[1..])
  }

  function DigitChar(d: nat): char
    requires d < 10
  {
    ('0' as int + d) as char
  }

  predicate IsDigit(c: char)
  {
    '0' <= c <= '9'
  }

  /** `str(n)` (and `f"{n}"`) for a non-negative integer. */
  function NatToString(n: nat): (r: string)
    ensures |r| > 0
    ensures forall i :: 0 <= i < |r| ==> IsDigit(r[i])
  {
    if n < 10 then [DigitChar(n)] else NatToString(n / 10) + [DigitChar(n % 10)]
  }

  /** `int(s)` for a string of decimal digits. */
  function ParseDigits(s: string): nat
    requires forall i :: 0 <= i < |s| ==> IsDigit(s[i])
  {
    if s == [] then 0
    else
      assert IsDigit(s[|s| - 1]);
      ParseDigits(s[..|s| - 1]) * 10 + (s[|s| - 1] as int - '0' as int)
  }

  // ---------------------------------------------------------------------
  // Properties of the built-ins
  // ---------------------------------------------------------------------

  /** Strings written by `NatToString` read back as the same number. */
  lemma {:induction false} NatToStringRoundTrip(n: nat)
    ensures ParseDigits(NatToString(n)) == n
  {
    if n >= 10 {
      var r := NatToString(n);
      assert r[..|r| - 1] == NatToString(n / 10);
      NatToStringRoundTrip(n / 10);
    }
  }

  /** Formatting a count is injective, so two distinct counts are never shown alike. */
  lemma NatToStringInjective(m: nat, n: nat)
    requires NatToString(m) == NatToString(n)
    ensures m == n
  {
    NatToStringRoundTrip(m);
    NatToStringRoundTrip(n);
  }

  /** `Contains` holds exactly when there is an occurrence. */
  lemma {:induction false} ContainsFromOccurrence(haystack: string, needle: string, i: int)
    requires OccursAt(haystack, needle, i)
    ensures Contains(haystack, needle)
    decreases i
  {
    if haystack[..|needle|] != needle {
      assert i > 0;
      assert haystack[1..][i - 1..i - 1 + |needle|] == haystack[i..i + |needle|];
      ContainsFromOccurrence(haystack[1..], needle, i - 1);
    }
  }

  lemma {:induction false} OccurrenceFromContains(haystack: string, needle: string) returns (i: int)
    requires Contains(haystack, needle)
    ensures OccursAt(haystack, needle, i)
    decreases |haystack|
  {
    if haystack[..|needle|] == needle {
      i := 0;
    } else {
      var j := OccurrenceFromContains(haystack[1..], needle);
      assert haystack[1..][j..j + |needle|] == haystack[j + 1..j + 1 + |needle|];
      i := j + 1;
    }
  }

  /** A pattern whose first character is absent cannot be found, so replacing it changes nothing. */
  lemma {:induction false} ReplaceAbsent(s: string, pat: string, rep: string)
    requires |pat| > 0 && pat[0] !in s
    ensures Replace(s, pat, rep) == s
    decreases |s|
  {
    if |s| >= |pat| {
      assert s[..|pat|][0] == s[0];
      ReplaceAbsent(s[1..], pat, rep);
    }
  }

  /** A character absent from both the text and the replacement is absent from the result. */
  lemma {:induction false} ReplaceKeepsAbsent(s: string, pat: string, rep: string, c: char)
    requires |pat| > 0 && c !in s && c !in rep
    ensures c !in Replace(s, pat, rep)
    decreases |s|
  {
    if |s| >= |pat| {
      if s[..|pat|] == pat {
        ReplaceKeepsAbsent(s[|pat|..], pat, rep, c);
      } else {
        ReplaceKeepsAbsent(s[1..], pat, rep, c);
      }
    }
  }

  /** Replacing a single character by text without it removes every occurrence. */
  lemma {:induction false} ReplaceCharRemoves(s: string, c: char, rep: string)
    requires c !in rep
    ensures c !in Replace(s, [c], rep)
    decreases |s|
  {
    if s != [] {
      ReplaceCharRemoves(s[1..], c, rep);
    }
  }

  /** One step of a single-character replacement. */
  lemma ReplaceCharCons(x: char, t: string, c: char, rep: string)
    ensures Replace([x] + t, [c], rep) == (if x == c then rep else [x]) + Replace(t, [c], rep)
  {
    var s := [x] + t;
    assert s[..1] == [x] && s[1..] == t;
  }

  /** A single-character replacement distributes over concatenation. */
  lemma {:induction false} ReplaceCharAppend(a: string, b: string, c: char, rep: string)
    ensures Replace(a + b, [c], rep) == Replace(a, [c], rep) + Replace(b, [c], rep)
    decreases |a|
  {
    if a == [] {
      assert a + b == b;
    } else {
      assert a + b == [a[0]] + (a[1..] + b);
      ReplaceCharCons(a[0], a[1..] + b, c, rep);
      ReplaceCharAppend(a[1..], b, c, rep);
      ReplaceCharCons(a[0], a[1..], c, rep);
      assert a == [a[0]] + a[1..];
    }
  }

  /** Two single-character replacements commute when neither replacement
      introduces the character the other one targets. */
  lemma {:induction false} ReplaceCharCommute(s: string, a: char, ra: string, b: char, rb: string)
    requires a != b && a !in rb && b !in ra
    ensures Replace(Replace(s, [a], ra), [b], rb) == Replace(Replace(s, [b], rb), [a], ra)
    decreases |s|
  {
    if s != [] {
      var x, t := s[0], s[1..];
      assert s == [x] + t;
      ReplaceCharCons(x, t, a, ra);
      ReplaceCharCons(x, t, b, rb);
      var ea := if x == a then ra else [x];
      var eb := if x == b then rb else [x];
      ReplaceCharAppend(ea, Replace(t, [a], ra), b, rb);
      ReplaceCharAppend(eb, Replace(t, [b], rb), a, ra);
      if x == a {
        ReplaceAbsent(ra, [b], rb);
        ReplaceCharCons(x, [], a, ra);
        assert Replace([], [a], ra) == [];
      } else if x == b {
        ReplaceAbsent(rb, [a], ra);
        ReplaceCharCons(x, [], b, rb);
        assert Replace([], [b], rb) == [];
      } else {
        ReplaceAbsent([x], [a], ra);
        ReplaceAbsent([x], [b], rb);
      }
      ReplaceCharCommute(t, a, ra, b, rb);
    }
  }

  /** A replacement whose pattern and replacement contain no `c` keeps the number of `c`s. */
  lemma {:induction false} ReplaceKeepsCount(s: string, pat: string, rep: string, c: char)
    requires |pat| > 0 && c !in pat && c !in rep
    ensures Count(Replace(s, pat, rep), c) == Count(s, c)
    decreases |s|
  {
    if |s| >= |pat| {
      if s[..|pat|] == pat {
        ReplaceKeepsCount(s[|pat|..], pat, rep, c);
        CountAppend(rep, Replace(s[|pat|..], pat, rep), c);
        CountNone(rep, c);
        CountSplit(s, |pat|, c);
        CountNone(s[..|pat|], c);
      } else {
        ReplaceKeepsCount(s[1..], pat, rep, c);
        CountAppend([s[0]], Replace(s[1..], pat, rep), c);
      }
    }
  }

  lemma {:induction false} CountAppend(a: string, b: string, c: char)
    ensures Count(a + b, c) == Count(a, c) + Count(b, c)
    decreases |a|
  {
    if a != [] {
      assert (a + b)[0] == a[0] && (a + b)[1..] == a[1..] + b;
      CountAppend(a[1..], b, c);
    } else {
      assert a + b == b;
    }
  }

  lemma CountSplit(s: string, k: nat, c: char)
    requires k <= |s|
    ensures Count(s, c) == Count(s[..k], c) + Count(s[k..], c)
  {
    assert s == s[..k] + s[k..];
    CountAppend(s[..k], s[k..], c);
  }

  lemma {:induction false} CountNone(s: string, c: char)
    requires c !in s
    ensures Count(s, c) == 0
    decreases |s|
  {
    if s != [] {
      CountNone(s[1..], c);
    }
  }

  /** A character other than the pattern's single character survives the replacement. */
  lemma {:induction false} ReplaceCharKeepsOther(s: string, c: char, rep: string, d: char)
    requires d != c && d in s
    ensures d in Replace(s, [c], rep)
    decreases |s|
  {
    assert s == [s[0]] + s[1..];
    ReplaceCharCons(s[0], s[1..], c, rep);
    if s[0] != d {
      ReplaceCharKeepsOther(s[1..], c, rep, d);
    }
  }

  /** The text shown from a capped list is the start of the text of the whole list. */
  lemma {:induction false} JoinTakeIsPrefix(parts: seq<string>, n: nat, sep: string)
    ensures Join(Take(parts, n), sep) <= Join(parts, sep)
    decreases n
  {
    if n < |parts| && n > 0 {
      assert Take(parts, n) == [parts[0]] + Take(parts[1..], n - 1);
      if n == 1 {
        assert Join(Take(parts, n), sep) == parts[0];
      } else {
        JoinTakeIsPrefix(parts[1..], n - 1, sep);
        assert Take(parts, n)[1..] == Take(parts[1..], n - 1);
      }
    }
  }
}
