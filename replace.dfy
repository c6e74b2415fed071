/** Python's `str.replace(old, new)` for a non-empty `old`: a literal, left-to-right,
    non-overlapping replacement of every occurrence. */
module Replace {

  /** `pat` occurs in `s` starting at index `i`. */
  predicate OccursAt(s: string, i: int, pat: string) {
    0 <= i && i + |pat| <= |s| && s[i..i + |pat|] == pat
  }

  /** `pat` occurs somewhere in `s`. */
  ghost predicate Occurs(s: string, pat: string) {
    exists i :: OccursAt(s, i, pat)
  }

  /** The scan of `str.replace`: at each position, an occurrence of `pat` is replaced by
      `rep` and skipped; otherwise one character is copied. */
  function ReplaceAll(s: string, pat: string, rep: string): string
    requires pat != []
    decreases |s|
  {
    if |s| < |pat| then s
    else if s[..|pat|] == pat then rep + ReplaceAll(s[|pat|..], pat, rep)
    else [s[0]] + ReplaceAll(s[1..], pat, rep)
  }

  /** Text without any occurrence of the pattern is returned unchanged. */
  lemma {:induction false} ReplaceAbsent(s: string, pat: string, rep: string)
    requires pat != []
    requires !Occurs(s, pat)
    ensures ReplaceAll(s, pat, rep) == s
    decreases |s|
  {
    if |s| >= |pat| {
      assert !OccursAt(s, 0, pat);
      forall i | OccursAt(s[1..], i, pat) ensures OccursAt(s, i + 1, pat) {
        assert s[i + 1..i + 1 + |pat|] == s[1..][i..i + |pat|];
      }
      ReplaceAbsent(s[1..], pat, rep);
    }
  }

  /** Replacing the pattern by itself is the identity. */
  lemma {:induction false} ReplaceSame(s: string, pat: string)
    requires pat != []
    ensures ReplaceAll(s, pat, pat) == s
    decreases |s|
  {
    if |s| >= |pat| {
      if s[..|pat|] == pat {
        ReplaceSame(s[|pat|..], pat);
        assert s == s[..|pat|] + s[|pat|..];
      } else {
        ReplaceSame(s[1..], pat);
        assert s == [s[0]] + s[1..];
      }
    }
  }

  /** An occurrence in the tail `s[1..]` is an occurrence in `s`, one index later. */
  lemma {:induction false} OccursInTail(s: string, j: nat, pat: string)
    requires |s| > 0
    ensures OccursAt(s[1..], j, pat) <==> OccursAt(s, j + 1, pat)
  {
    if j + 1 + |pat| <= |s| {
      assert s[1..][j..j + |pat|] == s[j + 1..j + 1 + |pat|];
    }
  }

  /** Everything before the first occurrence is copied, the first occurrence is replaced,
      and the scan resumes right after it. */
  lemma {:induction false} ReplaceFirst(s: string, i: nat, pat: string, rep: string)
    requires pat != []
    requires OccursAt(s, i, pat)
    requires forall j :: 0 <= j < i ==> !OccursAt(s, j, pat)
    ensures ReplaceAll(s, pat, rep) == s[..i] + rep + ReplaceAll(s[i + |pat|..], pat, rep)
    decreases i, 1
  {
    if i > 0 {
      ReplaceFirstLater(s, i, pat, rep);
    } else {
      ReplaceStep(s, pat, rep);
      assert s[..0] + rep == rep;
    }
  }

  /** `ReplaceFirst` for an occurrence after the start: the first character is copied. */
  lemma {:induction false} ReplaceFirstLater(s: string, i: nat, pat: string, rep: string)
    requires pat != [] && 0 < i
    requires OccursAt(s, i, pat)
    requires forall j :: 0 <= j < i ==> !OccursAt(s, j, pat)
    ensures ReplaceAll(s, pat, rep) == s[..i] + rep + ReplaceAll(s[i + |pat|..], pat, rep)
    decreases i, 0
  {
    TailFirst(s, i, pat);
    ReplaceFirst(s[1..], i - 1, pat, rep);
    FirstStep(s, i, pat, rep);
  }

  /** Where the pattern starts, the scan emits the replacement and skips the occurrence. */
  lemma {:induction false} ReplaceStep(s: string, pat: string, rep: string)
    requires pat != [] && OccursAt(s, 0, pat)
    ensures ReplaceAll(s, pat, rep) == rep + ReplaceAll(s[|pat|..], pat, rep)
  {
    assert s[..|pat|] == s[0..|pat|];
  }

  /** The first occurrence at `i` is, in the tail, the first occurrence at `i - 1`. */
  lemma {:induction false} TailFirst(s: string, i: nat, pat: string)
    requires 0 < i && OccursAt(s, i, pat)
    requires forall j :: 0 <= j < i ==> !OccursAt(s, j, pat)
    ensures OccursAt(s[1..], i - 1, pat)
    ensures forall j :: 0 <= j < i - 1 ==> !OccursAt(s[1..], j, pat)
  {
    OccursInTail(s, i - 1, pat);
    forall j | 0 <= j < i - 1 ensures !OccursAt(s[1..], j, pat) {
      OccursInTail(s, j, pat);
    }
  }

  /** The inductive step of `ReplaceFirst`: one copied character in front. */
  lemma {:induction false} FirstStep(s: string, i: nat, pat: string, rep: string)
    requires pat != [] && 0 < i && i + |pat| <= |s| && !OccursAt(s, 0, pat)
    requires var t := s[1..];
      ReplaceAll(t, pat, rep) == t[..i - 1] + rep + ReplaceAll(t[i - 1 + |pat|..], pat, rep)
    ensures ReplaceAll(s, pat, rep) == s[..i] + rep + ReplaceAll(s[i + |pat|..], pat, rep)
  {
    var t := s[1..];
    var rest := ReplaceAll(s[i + |pat|..], pat, rep);
    CopyStep(s, pat, rep);
    TailSlice(s, i + |pat|);
    HeadSplit(s, i);
    Assoc([s[0]], t[..i - 1] + rep, rest);
    Assoc([s[0]], t[..i - 1], rep);
  }

  /** Where the pattern does not start, the scan copies one character and moves on. */
  lemma {:induction false} CopyStep(s: string, pat: string, rep: string)
    requires pat != [] && |s| > 0 && !OccursAt(s, 0, pat)
    ensures ReplaceAll(s, pat, rep) == [s[0]] + ReplaceAll(s[1..], pat, rep)
  {
  }

  /** A non-empty prefix is its first character followed by a prefix of the tail. */
  lemma {:induction false} HeadSplit(s: string, i: nat)
    requires 0 < i <= |s|
    ensures s[..i] == [s[0]] + s[1..][..i - 1]
  {
    var a, b := s[..i], [s[0]] + s[1..][..i - 1];
    assert |a| == |b|;
    forall k | 0 <= k < i ensures a[k] == b[k] {
      if k > 0 {
        assert b[k] == s[1..][k - 1];
      }
    }
  }

  /** A suffix of the tail is a suffix of the whole. */
  lemma {:induction false} TailSlice(s: string, m: nat)
    requires 1 <= m <= |s|
    ensures s[1..][m - 1..] == s[m..]
  {
    assert forall k :: 0 <= k < |s| - m ==> s[1..][m - 1..][k] == s[m..][k];
  }

  /** Concatenation is associative. */
  lemma {:induction false} Assoc<T>(a: seq<T>, b: seq<T>, c: seq<T>)
    ensures a + (b + c) == (a + b) + c
  {
    assert forall k :: 0 <= k < |a| + |b| + |c| ==> (a + (b + c))[k] == ((a + b) + c)[k];
  }

  /** Some occurrence at or before `k` is the first one. */
  lemma {:induction false} FirstOccurrence(s: string, pat: string, k: nat) returns (i: nat)
    requires OccursAt(s, k, pat)
    ensures i <= k && OccursAt(s, i, pat)
    ensures forall j :: 0 <= j < i ==> !OccursAt(s, j, pat)
    decreases k
  {
    if j :| 0 <= j < k && OccursAt(s, j, pat) {
      i := FirstOccurrence(s, pat, j);
    } else {
      i := k;
    }
  }

  /** From index `l` on, `w` spells `rep`, as far as either goes. */
  predicate Spells(w: string, l: int, rep: string) {
    forall m :: 0 <= l <= m < |w| && m - l < |rep| ==> w[m] == rep[m - l]
  }

  /** The output of the scan copies the input up to its first replacement, so a prefix `w` of
      the output is a prefix of the input, or the input agrees with `w` up to an occurrence
      at some `l < |w|`, from which on `w` spells the replacement. */
  lemma {:induction false} PrefixKept(s: string, pat: string, rep: string, w: string)
    requires pat != []
    requires |w| <= |ReplaceAll(s, pat, rep)| && ReplaceAll(s, pat, rep)[..|w|] == w
    ensures || (|w| <= |s| && s[..|w|] == w)
            || exists l :: 0 <= l < |w| && OccursAt(s, l, pat) && s[..l] == w[..l] && Spells(w, l, rep)
  {
    if !Occurs(s, pat) {
      ReplaceAbsent(s, pat, rep);
    } else {
      var k :| OccursAt(s, k, pat);
      var i := FirstOccurrence(s, pat, k);
      ReplaceFirst(s, i, pat, rep);
      var out := ReplaceAll(s, pat, rep);
      assert out == s[..i] + rep + ReplaceAll(s[i + |pat|..], pat, rep);
      if i >= |w| {
        assert s[..|w|] == out[..|w|];
      } else {
        assert s[..i] == out[..i] == w[..i];
        assert forall m :: i <= m < |w| && m - i < |rep| ==> w[m] == out[m] == rep[m - i];
        assert Spells(w, i, rep);
      }
    }
  }

  /** The number of positions at which `pat` occurs in `s` (overlapping ones included). */
  function Count(s: string, pat: string): nat
    decreases |s|
  {
    if s == [] then 0 else (if OccursAt(s, 0, pat) then 1 else 0) + Count(s[1..], pat)
  }

  /** The count is zero exactly when the pattern occurs nowhere. */
  lemma {:induction false} CountZero(s: string, pat: string)
    requires pat != []
    ensures Count(s, pat) == 0 <==> !Occurs(s, pat)
    decreases |s|
  {
    if s != [] {
      CountZero(s[1..], pat);
      if Occurs(s[1..], pat) {
        var i :| OccursAt(s[1..], i, pat);
        OccursInTail(s, i, pat);
      }
      if Occurs(s, pat) && !OccursAt(s, 0, pat) {
        var i :| OccursAt(s, i, pat);
        OccursInTail(s, i - 1, pat);
      }
    }
  }

  /** Positions before `k` where the pattern does not occur add nothing to the count. */
  lemma {:induction false} CountNoneBefore(u: string, pat: string, k: nat)
    requires k <= |u|
    requires forall q :: 0 <= q < k ==> !OccursAt(u, q, pat)
    ensures Count(u, pat) == Count(u[k..], pat)
    decreases k
  {
    if k > 0 {
      forall q | 0 <= q < k - 1 ensures !OccursAt(u[1..], q, pat) {
        OccursInTail(u, q, pat);
      }
      CountNoneBefore(u[1..], pat, k - 1);
      assert u[1..][k - 1..] == u[k..];
    }
  }

  /** The scan copies the input up to its first occurrence: with none before `k`, the output's
      first `k` characters are the input's. */
  lemma {:induction false} PrefixCopied(u: string, pat: string, rep: string, k: nat)
    requires pat != [] && k <= |u|
    requires forall l :: 0 <= l < k ==> !OccursAt(u, l, pat)
    ensures k <= |ReplaceAll(u, pat, rep)| && ReplaceAll(u, pat, rep)[..k] == u[..k]
  {
    if !Occurs(u, pat) {
      ReplaceAbsent(u, pat, rep);
    } else {
      var j :| OccursAt(u, j, pat);
      var i := FirstOccurrence(u, pat, j);
      ReplaceFirst(u, i, pat, rep);
      assert ReplaceAll(u, pat, rep)[..k] == u[..i][..k];
    }
  }
}
