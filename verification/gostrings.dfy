/** The parts of Go's string semantics and `strings` package the core relies
    on: byte-wise ordering (`<` on strings), `HasPrefix`, `HasSuffix`,
    `TrimPrefix` and `Replace(s, old, new, 1)`. A Go string is a byte
    sequence; here it is a sequence of code points. Comparing UTF-8 encodings
    byte by byte orders them exactly as their code points, so `Less` agrees
    with Go on every valid UTF-8 string. */
module GoStrings {

  /** Go's `a < b` on strings: lexicographic, a proper prefix first. */
  predicate Less(a: string, b: string)
    decreases |a|
  {
    if |a| == 0 then |b| > 0
    else if |b| == 0 then false
    else if a[0] != b[0] then a[0] < b[0]
    else Less(a[1..], b[1..])
  }

  lemma {:induction false} LessIrreflexive(a: string)
    ensures !Less(a, a)
    decreases |a|
  {
    if |a| > 0 {
      LessIrreflexive(a[1..]);
    }
  }

  lemma {:induction false} LessAsymmetric(a: string, b: string)
    requires Less(a, b)
    ensures !Less(b, a)
    decreases |a|
  {
    if |a| > 0 && |b| > 0 && a[0] == b[0] {
      LessAsymmetric(a[1..], b[1..]);
    }
  }

  lemma {:induction false} LessTransitive(a: string, b: string, c: string)
    requires Less(a, b) && Less(b, c)
    ensures Less(a, c)
    decreases |a|
  {
    if |a| > 0 && a[0] == b[0] && b[0] == c[0] {
      LessTransitive(a[1..], b[1..], c[1..]);
    }
  }

  /** Any two different strings are ordered one way or the other. */
  lemma {:induction false} LessTotal(a: string, b: string)
    ensures a == b || Less(a, b) || Less(b, a)
    decreases |a|
  {
    if |a| > 0 && |b| > 0 && a[0] == b[0] {
      LessTotal(a[1..], b[1..]);
      if a[1..] == b[1..] {
        assert a == [a[0]] + a[1..] && b == [b[0]] + b[1..];
      }
    }
  }

  /** Strings that differ at their first character are ordered by it. */
  lemma LessStep(a: string, b: string)
    requires |a| > 0 && |b| > 0 && a[0] < b[0]
    ensures Less(a, b)
  {
  }

  predicate HasPrefix(s: string, prefix: string) {
    |prefix| <= |s| && s[..|prefix|] == prefix
  }

  predicate HasSuffix(s: string, suffix: string) {
    |suffix| <= |s| && s[|s| - |suffix|..] == suffix
  }

  /** Go's `strings.TrimPrefix`: drops ONE leading occurrence of `prefix`. */
  function TrimPrefix(s: string, prefix: string): (r: string)
    ensures HasPrefix(s, prefix) ==> prefix + r == s
    ensures !HasPrefix(s, prefix) ==> r == s
  {
    if HasPrefix(s, prefix) then s[|prefix|..] else s
  }

  /** `pat` occurs in `s` starting at index `i`. */
  predicate OccursAt(s: string, i: int, pat: string) {
    0 <= i && i + |pat| <= |s| && s[i..i + |pat|] == pat
  }

  /** `i` is the leftmost occurrence of `pat` in `s`. */
  predicate FirstAt(s: string, i: int, pat: string) {
    OccursAt(s, i, pat) && forall j :: 0 <= j < i ==> !OccursAt(s, j, pat)
  }

  predicate Contains(s: string, pat: string) {
    exists i :: 0 <= i <= |s| && OccursAt(s, i, pat)
  }

  /** Go's `strings.Replace(s, pat, rep, 1)`: the leftmost occurrence of
      `pat` is replaced, nothing else changes. (An empty `pat` matches at
      the very beginning.) `ReplaceOnceLeftmost` states this. */
  function ReplaceOnce(s: string, pat: string, rep: string): string
    decreases |s|
  {
    if |pat| == 0 then rep + s
    else if |s| < |pat| then s
    else if s[..|pat|] == pat then rep + s[|pat|..]
    else [s[0]] + ReplaceOnce(s[1..], pat, rep)
  }

  lemma OccursShift(s: string, i: int, pat: string)
    requires |s| > 0 && 1 <= i
    ensures OccursAt(s, i, pat) <==> OccursAt(s[1..], i - 1, pat)
  {
    if i + |pat| <= |s| {
      var here, there := s[i..i + |pat|], s[1..][i - 1..i - 1 + |pat|];
      forall k | 0 <= k < |pat| ensures here[k] == there[k] {
        assert here[k] == s[i + k] == s[1..][i - 1 + k] == there[k];
      }
      assert here == there;
    }
  }

  /** Without an occurrence the string is returned unchanged. */
  lemma {:induction false} ReplaceOnceAbsent(s: string, pat: string, rep: string)
    requires !Contains(s, pat)
    ensures ReplaceOnce(s, pat, rep) == s
    decreases |s|
  {
    if |pat| == 0 {
      assert OccursAt(s, 0, pat);
    } else if |s| < |pat| {
    } else if s[..|pat|] == pat {
      assert OccursAt(s, 0, pat);
    } else {
      var t := s[1..];
      forall i | 0 <= i <= |t|
        ensures !OccursAt(t, i, pat)
      {
        OccursShift(s, i + 1, pat);
      }
      ReplaceOnceAbsent(t, pat, rep);
      assert s == [s[0]] + t;
    }
  }

  /** The leftmost occurrence past the first position is the leftmost one
      of the tail. */
  lemma FirstAtShift(s: string, i: int, pat: string)
    requires FirstAt(s, i, pat) && i >= 1
    ensures FirstAt(s[1..], i - 1, pat)
  {
    OccursShift(s, i, pat);
    forall j | 0 <= j < i - 1
      ensures !OccursAt(s[1..], j, pat)
    {
      OccursShift(s, j + 1, pat);
    }
  }

  /** Splitting around position `i` commutes with dropping the first
      character. */
  lemma SpliceShift(s: string, i: int, n: nat, rep: string)
    requires 1 <= i && i + n <= |s|
    ensures s[..i] + rep + s[i + n..] == [s[0]] + (s[1..][..i - 1] + rep + s[1..][i - 1 + n..])
  {
    assert s[..i] == [s[0]] + s[1..][..i - 1];
    assert s[i + n..] == s[1..][i - 1 + n..];
  }

  /** One step of the scan: no occurrence at the front keeps the first
      character and scans on. */
  lemma ReplaceOnceSkip(s: string, pat: string, rep: string)
    requires |pat| > 0 && |s| >= |pat| && !OccursAt(s, 0, pat)
    ensures ReplaceOnce(s, pat, rep) == [s[0]] + ReplaceOnce(s[1..], pat, rep)
  {
  }

  /** An occurrence at the front is replaced. */
  lemma ReplaceOnceHere(s: string, pat: string, rep: string)
    requires OccursAt(s, 0, pat)
    ensures ReplaceOnce(s, pat, rep) == s[..0] + rep + s[|pat|..]
  {
    assert s[..0] + rep + s[|pat|..] == rep + s[|pat|..];
  }

  /** The leftmost occurrence, and only it, is replaced. */
  lemma {:induction false} ReplaceOnceFirst(s: string, pat: string, rep: string, i: int)
    requires FirstAt(s, i, pat)
    ensures ReplaceOnce(s, pat, rep) == s[..i] + rep + s[i + |pat|..]
    decreases |s|
  {
    if i == 0 {
      ReplaceOnceHere(s, pat, rep);
    } else {
      assert !OccursAt(s, 0, pat);
      ReplaceOnceSkip(s, pat, rep);
      FirstAtShift(s, i, pat);
      ReplaceOnceFirst(s[1..], pat, rep, i - 1);
      SpliceShift(s, i, |pat|, rep);
    }
  }

  /** Without an occurrence the string is returned unchanged; otherwise the
      leftmost occurrence, and only it, is replaced. */
  lemma ReplaceOnceLeftmost(s: string, pat: string, rep: string)
    ensures !Contains(s, pat) ==> ReplaceOnce(s, pat, rep) == s
    ensures forall i :: FirstAt(s, i, pat) ==> ReplaceOnce(s, pat, rep) == s[..i] + rep + s[i + |pat|..]
  {
    if !Contains(s, pat) {
      ReplaceOnceAbsent(s, pat, rep);
    }
    forall i | FirstAt(s, i, pat)
      ensures ReplaceOnce(s, pat, rep) == s[..i] + rep + s[i + |pat|..]
    {
      ReplaceOnceFirst(s, pat, rep, i);
    }
  }
}
