/** String operations the code relies on: substring search
    (`String.prototype.includes`, Python `in`), ASCII lower-casing
    (`toLowerCase`) and Python's single-pass `str.replace`. */
module Text {

  /** `t` occurs in `s` starting at index `i`. */
  predicate OccursAt(s: string, t: string, i: int)
  {
    0 <= i && i + |t| <= |s| && s[i..i + |t|] == t
  }

  /** `s.includes(t)` / `t in s`. */
  predicate Contains(s: string, t: string)
  {
    exists i | 0 <= i <= |s| - |t| :: OccursAt(s, t, i)
  }

  predicate StartsWith(s: string, p: string)
  {
    |p| <= |s| && s[..|p|] == p
  }

  /** A string lacking one of `t`'s characters cannot contain `t`. */
  lemma MissingCharNotContained(s: string, t: string, c: char)
    requires c in t && c !in s
    ensures !Contains(s, t)
  {
    forall i | 0 <= i <= |s| - |t| ensures !OccursAt(s, t, i) {
      var w := s[i..i + |t|];
      forall j | 0 <= j < |w| ensures w[j] != c {
        assert w[j] == s[i + j];
      }
    }
  }

  function LowerChar(c: char): char
  {
    if 'A' <= c <= 'Z' then (c as int + 32) as char else c
  }

  /** `toLowerCase`, restricted to the ASCII letters. */
  function Lower(s: string): string
  {
    if s == [] then [] else [LowerChar(s[0])] + Lower(s[1..])
  }

  lemma {:induction false} LowerLength(s: string)
    ensures |Lower(s)| == |s|
  {
    if s != [] { LowerLength(s[1..]); }
  }

  /** Lower-casing works character by character, so it commutes with slicing. */
  lemma {:induction false} LowerSlice(s: string, i: int, j: int)
    requires 0 <= i <= j <= |s|
    ensures |Lower(s)| == |s|
    ensures Lower(s)[i..j] == Lower(s[i..j])
  {
    LowerLength(s);
    if s != [] {
      LowerSlice(s[1..], if i == 0 then 0 else i - 1, if j == 0 then 0 else j - 1);
      if i == 0 && j > 0 {
        assert s[i..j] == [s[0]] + s[1..][0..j - 1];
      } else if i > 0 {
        assert s[i..j] == s[1..][i - 1..j - 1];
      }
    }
  }

  /** An occurrence survives lower-casing as the lower-cased occurrence. */
  lemma LowerContains(s: string, t: string)
    requires Contains(s, t)
    ensures Contains(Lower(s), Lower(t))
  {
    var i :| 0 <= i <= |s| - |t| && OccursAt(s, t, i);
    LowerSlice(s, i, i + |t|);
    LowerLength(t);
    assert s[i..i + |t|] == t;
    assert Lower(s)[i..i + |Lower(t)|] == Lower(t);
    assert OccursAt(Lower(s), Lower(t), i);
  }

  /** Python's `s.replace(pat, rep)`: every non-overlapping occurrence of
      `pat`, found left to right, is replaced by `rep`, in one pass. */
  function Replace(s: string, pat: string, rep: string): string
    requires |pat| > 0
    decreases |s|
  {
    if |s| < |pat| then s
    else if s[..|pat|] == pat then rep + Replace(s[|pat|..], pat, rep)
    else [s[0]] + Replace(s[1..], pat, rep)
  }

  /** A string without any occurrence of `pat` is left alone. */
  lemma {:induction false} ReplaceAbsent(s: string, pat: string, rep: string)
    requires |pat| > 0 && !Contains(s, pat)
    ensures Replace(s, pat, rep) == s
  {
    if |s| >= |pat| {
      assert !OccursAt(s, pat, 0);
      forall i | 0 <= i <= |s[1..]| - |pat| ensures !OccursAt(s[1..], pat, i) {
        assert !OccursAt(s, pat, i + 1);
        assert s[1..][i..i + |pat|] == s[i + 1..i + 1 + |pat|];
      }
      ReplaceAbsent(s[1..], pat, rep);
    }
  }

  /** A prefix none of whose characters starts `pat` passes through unchanged. */
  lemma {:induction false} ReplaceKeepsPrefix(p: string, rest: string, pat: string, rep: string)
    requires |pat| > 0
    requires pat[0] !in p
    ensures Replace(p + rest, pat, rep) == p + Replace(rest, pat, rep)
  {
    var s := p + rest;
    if p == [] {
      assert s == rest;
    } else {
      assert s[1..] == p[1..] + rest;
      ReplaceKeepsPrefix(p[1..], rest, pat, rep);
      if |s| < |pat| {
        assert |rest| < |pat|;
      } else {
        assert s[..|pat|][0] == p[0];
        assert Replace(s, pat, rep) == [p[0]] + (p[1..] + Replace(rest, pat, rep));
        assert [p[0]] + p[1..] == p;
      }
    }
  }

  /** A single occurrence of `pat`, after a prefix that cannot start it,
      is the only thing replaced. */
  lemma ReplaceSingle(p: string, tail: string, pat: string, rep: string)
    requires |pat| > 0 && pat[0] !in p && !Contains(tail, pat)
    ensures Replace(p + pat + tail, pat, rep) == p + rep + tail
  {
    assert p + pat + tail == p + (pat + tail);
    ReplaceKeepsPrefix(p, pat + tail, pat, rep);
    assert (pat + tail)[..|pat|] == pat;
    assert (pat + tail)[|pat|..] == tail;
    ReplaceAbsent(tail, pat, rep);
    assert p + (rep + tail) == p + rep + tail;
  }

  /** Replacement introduces no character that neither the input nor `rep` has. */
  lemma {:induction false} ReplaceAvoids(s: string, pat: string, rep: string, bad: char -> bool)
    requires |pat| > 0
    requires forall k | 0 <= k < |s| :: !bad(s[k])
    requires forall k | 0 <= k < |rep| :: !bad(rep[k])
    ensures forall k | 0 <= k < |Replace(s, pat, rep)| :: !bad(Replace(s, pat, rep)[k])
  {
    if |s| >= |pat| {
      if s[..|pat|] == pat {
        ReplaceAvoids(s[|pat|..], pat, rep, bad);
      } else {
        ReplaceAvoids(s[1..], pat, rep, bad);
      }
    }
  }
}
