/**
 * The string operations the dashboard relies on, with Python's meaning:
 * `str.strip()`, `str.endswith(suffix)` and the substring test `pat in s`.
 */
module Strings {

  /** The characters Python's `str.isspace` accepts, which are the ones
      `str.strip()` removes when it is called without arguments: the ASCII
      controls \t \n \x0b \x0c \r, the four separators \x1c-\x1f, the
      space, and the Unicode spaces and line/paragraph separators. */
  const SpaceChars: set<char> := {
    '\t', '\n', '\U{b}', '\U{c}', '\r',
    '\U{1c}', '\U{1d}', '\U{1e}', '\U{1f}',
    ' ', '\U{85}', '\U{a0}', '\U{1680}',
    '\U{2000}', '\U{2001}', '\U{2002}', '\U{2003}', '\U{2004}', '\U{2005}',
    '\U{2006}', '\U{2007}', '\U{2008}', '\U{2009}', '\U{200a}',
    '\U{2028}', '\U{2029}', '\U{202f}', '\U{205f}', '\U{3000}'
  }

  /** Python's `str.isspace` for a single character. */
  predicate IsSpace(c: char) {
    c in SpaceChars
  }

  /** Every character of `s` is whitespace. */
  predicate AllSpace(s: string) {
    forall i :: 0 <= i < |s| ==> IsSpace(s[i])
  }

  /** `s` has no leading and no trailing whitespace. */
  predicate Trimmed(s: string) {
    s == [] || (!IsSpace(s[0]) && !IsSpace(s[|s| - 1]))
  }

  /** A concatenation is all whitespace exactly when both parts are. */
  lemma AllSpaceAppend(a: string, b: string)
    ensures AllSpace(a + b) <==> AllSpace(a) && AllSpace(b)
  {
    if AllSpace(a + b) {
      forall k | 0 <= k < |a| ensures IsSpace(a[k]) {
        assert a[k] == (a + b)[k];
      }
      forall k | 0 <= k < |b| ensures IsSpace(b[k]) {
        assert b[k] == (a + b)[|a| + k];
      }
    }
  }

  /** Scanning forward from `i`, the index of the first character that is
      not whitespace, or `|s|` when there is none. */
  function SkipSpaces(s: string, i: nat): (j: nat)
    requires i <= |s|
    ensures i <= j <= |s|
    ensures j == |s| || !IsSpace(s[j])
    decreases |s| - i
  {
    if i < |s| && IsSpace(s[i]) then SkipSpaces(s, i + 1) else i
  }

  /** Scanning backward from `j`, but not past `lo`, the index just after
      the last character that is not whitespace, or `lo` when there is none. */
  function SkipSpacesBack(s: string, lo: nat, j: nat): (h: nat)
    requires lo <= j <= |s|
    ensures lo <= h <= j
    ensures h == lo || !IsSpace(s[h - 1])
    decreases j
  {
    if lo < j && IsSpace(s[j - 1]) then SkipSpacesBack(s, lo, j - 1) else j
  }

  /** `SkipSpaces` passes over whitespace only, and stops at the first
      character that is not whitespace. */
  lemma {:induction false} SkipSpacesExact(s: string, i: nat, j: nat)
    requires i <= j <= |s|
    ensures SkipSpaces(s, i) == j <==> AllSpace(s[i..j]) && (j == |s| || !IsSpace(s[j]))
    decreases |s| - i
  {
    if i < |s| && IsSpace(s[i]) {
      if i < j {
        SkipSpacesExact(s, i + 1, j);
        assert s[i..j] == [s[i]] + s[i + 1..j];
        AllSpaceAppend([s[i]], s[i + 1..j]);
      } else {
        assert SkipSpaces(s, i) != j by {
          SkipSpacesExact(s, i + 1, SkipSpaces(s, i + 1));
        }
      }
    } else if i < j {
      assert !AllSpace(s[i..j]) by { assert s[i..j][0] == s[i]; }
    }
  }

  /** `SkipSpacesBack` passes over whitespace only, and stops behind the
      last character that is not whitespace. */
  lemma {:induction false} SkipSpacesBackExact(s: string, lo: nat, j: nat, h: nat)
    requires lo <= h <= j <= |s|
    ensures SkipSpacesBack(s, lo, j) == h <==> AllSpace(s[h..j]) && (h == lo || !IsSpace(s[h - 1]))
    decreases j
  {
    if lo < j && IsSpace(s[j - 1]) {
      if h < j {
        SkipSpacesBackExact(s, lo, j - 1, h);
        assert s[h..j] == s[h..j - 1] + [s[j - 1]];
        AllSpaceAppend(s[h..j - 1], [s[j - 1]]);
      } else {
        assert SkipSpacesBack(s, lo, j) != h by {
          SkipSpacesBackExact(s, lo, j - 1, SkipSpacesBack(s, lo, j - 1));
        }
      }
    } else if h < j {
      assert !AllSpace(s[h..j]) by { assert s[h..j][j - 1 - h] == s[j - 1]; }
    }
  }

  /** How many characters `str.strip()` removes from the front of `s`. */
  function LeadingSpaces(s: string): (n: nat)
    ensures n <= |s|
  {
    SkipSpaces(s, 0)
  }

  /** Where the part of `s` that `str.strip()` keeps ends. */
  function KeptEnd(s: string): (h: nat)
    ensures LeadingSpaces(s) <= h <= |s|
  {
    SkipSpacesBack(s, LeadingSpaces(s), |s|)
  }

  /** `str.strip()`: the result is the slice of `s` that starts after its
      leading whitespace and has no whitespace at either end. */
  function Strip(s: string): (r: string)
    ensures Trimmed(r)
    ensures LeadingSpaces(s) + |r| <= |s|
    ensures r == s[LeadingSpaces(s)..LeadingSpaces(s) + |r|]
  {
    s[LeadingSpaces(s)..KeptEnd(s)]
  }

  /** Everything `str.strip()` cuts away, on either side, is whitespace. */
  lemma StripCuts(s: string)
    ensures AllSpace(s[..LeadingSpaces(s)])
    ensures AllSpace(s[LeadingSpaces(s) + |Strip(s)|..])
  {
    SkipSpacesExact(s, 0, LeadingSpaces(s));
    SkipSpacesBackExact(s, LeadingSpaces(s), |s|, KeptEnd(s));
    assert s[..LeadingSpaces(s)] == s[0..LeadingSpaces(s)];
    assert s[KeptEnd(s)..] == s[KeptEnd(s)..|s|];
  }

  /** `strip` is determined by what it removes: whitespace around a trimmed
      core is stripped back to exactly that core. */
  lemma StripUnique(a: string, m: string, b: string)
    requires AllSpace(a) && AllSpace(b) && Trimmed(m)
    ensures Strip(a + m + b) == m
  {
    var s := a + m + b;
    if m == [] {
      assert s == a + b;
      SkipSpacesExact(s, 0, |s|);
      SkipSpacesBackExact(s, |s|, |s|, |s|);
    } else {
      SkipSpacesExact(s, 0, |a|);
      SkipSpacesBackExact(s, |a|, |s|, |a| + |m|);
      assert s[|a|..|a| + |m|] == m;
    }
  }

  /** A trimmed string is its own `strip`. */
  lemma StripTrimmed(s: string)
    requires Trimmed(s)
    ensures Strip(s) == s
  {
    assert [] + s + [] == s;
    StripUnique([], s, []);
  }

  /** `strip` is idempotent. */
  lemma StripIdempotent(s: string)
    ensures Strip(Strip(s)) == Strip(s)
  {
    StripTrimmed(Strip(s));
  }

  /** Python's `s.endswith(suffix)`. */
  predicate EndsWith(s: string, suffix: string) {
    |suffix| <= |s| && s[|s| - |suffix|..] == suffix
  }

  /** `s` ends with `suffix` exactly when it is some string followed by
      `suffix`. */
  lemma EndsWithIff(s: string, suffix: string)
    ensures EndsWith(s, suffix) <==> exists p :: s == p + suffix
  {
    if EndsWith(s, suffix) {
      assert s == s[..|s| - |suffix|] + suffix;
    }
    if exists p :: s == p + suffix {
      var p :| s == p + suffix;
      assert s[|s| - |suffix|..] == suffix;
    }
  }

  /** `pat` occurs in `s` starting at index `i`. */
  predicate OccursAt(s: string, pat: string, i: nat) {
    i + |pat| <= |s| && s[i..i + |pat|] == pat
  }

  /** Python's substring test `pat in s`, scanning `s` from the left. */
  function Contains(s: string, pat: string): (b: bool)
    ensures b ==> |pat| <= |s|
    ensures OccursAt(s, pat, 0) ==> b
    decreases |s|
  {
    if |pat| > |s| then false
    else if s[..|pat|] == pat then true
    else |s| > 0 && Contains(s[1..], pat)
  }

  /** `Contains` holds exactly when the pattern occurs at some index. */
  lemma {:induction false} ContainsIff(s: string, pat: string)
    ensures Contains(s, pat) <==> exists i: nat :: OccursAt(s, pat, i)
    decreases |s|
  {
    if |pat| > |s| {
      forall i: nat ensures !OccursAt(s, pat, i) { }
    } else if s[..|pat|] == pat {
      assert OccursAt(s, pat, 0);
    } else {
      ContainsIff(s[1..], pat);
      if Contains(s[1..], pat) {
        var i: nat :| OccursAt(s[1..], pat, i);
        assert s[i + 1..i + 1 + |pat|] == s[1..][i..i + |pat|];
        assert OccursAt(s, pat, i + 1);
      } else {
        forall i: nat | OccursAt(s, pat, i) ensures false {
          assert i != 0;
          assert s[1..][i - 1..i - 1 + |pat|] == s[i..i + |pat|];
          assert OccursAt(s[1..], pat, i - 1);
        }
      }
    }
  }
}
