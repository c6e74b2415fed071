/** The rewrite that `save_modified_files` applies to every template: replace each
    `["theatre"] = "<current>"` by `["theatre"] = "<target>"`. */
module Transform {
  import opened Wrappers
  import opened TheatreField
  import opened Replace

  /** The assignment text `["theatre"] = "<v>"`. */
  function Assignment(v: string): string {
    Prefix + v + "\""
  }

  /** `content.replace('["theatre"] = "<current>"', '["theatre"] = "<target>"')`. */
  function Rewrite(content: string, current: string, target: string): string {
    ReplaceAll(content, Assignment(current), Assignment(target))
  }

  /** A value that does not end in `[`: its assignment cannot end in `["`. */
  predicate OpenEnded(v: string) {
    v == [] || v[|v| - 1] != '['
  }

  /** A new assignment that differs from the old one cannot be read as the old one, whatever follows it. */
  lemma {:induction false} HeadNotStale(t: string, current: string, target: string)
    requires '"' !in current && '"' !in target && OpenEnded(target) && current != target
    requires !Occurs(t, Assignment(current))
    ensures !Occurs(Assignment(target) + t, Assignment(current))
  {
    var pat, rep := Assignment(current), Assignment(target);
    var u := rep + t;
    forall q | 0 <= q && q + |pat| <= |u| ensures !OccursAt(u, q, pat) {
      if q >= |rep| {
        assert !OccursAt(t, q - |rep|, pat);
        OccursAfter(rep, t, q - |rep|, pat);
      } else if q == 0 {
        DifferentAssignments(t, current, target);
      } else {
        PrefixBracket();
        if u[q] != pat[0] {
          Mismatch(u, q, pat, 0);
        } else {
          BracketNotQuote(target, q);
          assert u[q + 1] == rep[q + 1];
          Mismatch(u, q, pat, 1);
        }
      }
    }
  }

  /** Inside the assignment of a quote-free value that does not end in `[`, no `[` after the
      first character is followed by a quote. */
  lemma {:induction false} BracketNotQuote(v: string, m: nat)
    requires '"' !in v && OpenEnded(v)
    requires 0 < m < |Assignment(v)| && Assignment(v)[m] == '['
    ensures m + 1 < |Assignment(v)| && Assignment(v)[m + 1] != '"'
  {
    PrefixBracket();
    var a := Assignment(v);
    if m + 1 < |a| && a[m + 1] == '"' {
      InnerBracketQuote(v, m);
    }
  }

  /** One differing character rules out an occurrence. */
  lemma {:induction false} Mismatch(u: string, q: int, pat: string, k: nat)
    requires 0 <= q && k < |pat| && q + k < |u| && u[q + k] != pat[k]
    ensures !OccursAt(u, q, pat)
  {
    if q + |pat| <= |u| {
      assert u[q..q + |pat|][k] == u[q + k];
    }
  }

  /** An occurrence after a prefix `a` is an occurrence in the rest. */
  lemma {:induction false} OccursAfter(a: string, t: string, k: nat, pat: string)
    ensures OccursAt(a + t, |a| + k, pat) <==> OccursAt(t, k, pat)
  {
    if |a| + k + |pat| <= |a + t| {
      assert (a + t)[|a| + k..|a| + k + |pat|] == t[k..k + |pat|];
    }
  }

  /** An assignment opens with `[` and holds no other `[` when its value holds none. */
  lemma {:induction false} AssignmentBracket(v: string)
    requires '[' !in v
    ensures Assignment(v)[0] == '['
    ensures forall q :: 0 < q < |Assignment(v)| ==> Assignment(v)[q] != '['
  {
    PrefixBracket();
    var a := Assignment(v);
    forall q | 0 < q < |a| ensures a[q] != '[' {
      if |Prefix| <= q < |Prefix| + |v| {
        assert a[q] == v[q - |Prefix|];
      }
    }
  }

  /** The assignment of one quote-free value never starts with the assignment of another. */
  lemma {:induction false} DifferentAssignments(t: string, current: string, target: string)
    requires '"' !in current && '"' !in target && current != target
    ensures !OccursAt(Assignment(target) + t, 0, Assignment(current))
  {
    var pat, u := Assignment(current), Assignment(target) + t;
    var n := |Prefix|;
    if |current| < |target| {
      assert u[n + |current|] == target[|current|];
      Mismatch(u, 0, pat, n + |current|);
    } else if |current| > |target| {
      assert pat[n + |target|] == current[|target|];
      Mismatch(u, 0, pat, n + |target|);
    } else {
      var d :| 0 <= d < |current| && current[d] != target[d];
      assert u[n + d] == target[d] && pat[n + d] == current[d];
      Mismatch(u, 0, pat, n + d);
    }
  }

  /** Every old assignment is replaced, and none is formed anew: provided the two values
      differ, neither holds a quote and the target does not end in `[`, no
      `["theatre"] = "<current>"` remains. */
  lemma {:induction false} NoStaleAssignment(s: string, current: string, target: string)
    requires '"' !in current && '"' !in target && OpenEnded(target)
    requires current != target
    ensures !Occurs(Rewrite(s, current, target), Assignment(current))
    decreases |s|
  {
    var pat, rep := Assignment(current), Assignment(target);
    if |s| < |pat| {
    } else if s[..|pat|] == pat {
      var t := ReplaceAll(s[|pat|..], pat, rep);
      assert !Occurs(t, pat) by {
        NoStaleAssignment(s[|pat|..], current, target);
      }
      HeadNotStale(t, current, target);
    } else {
      var t := ReplaceAll(s[1..], pat, rep);
      assert !Occurs(t, pat) by {
        NoStaleAssignment(s[1..], current, target);
      }
      assert !OccursAt([s[0]] + t, 0, pat) by {
        HeadKept(s, current, target);
      }
      forall q | 0 < q ensures !OccursAt([s[0]] + t, q, pat) {
        OccursInTail([s[0]] + t, q - 1, pat);
        assert ([s[0]] + t)[1..] == t;
      }
    }
  }

  /** Why the target may hold no `[`: with current `A` and target `x[`, the new assignment's
      closing quote and the text after it spell the old assignment again. */
  lemma {:induction false} BracketTargetRecreates()
    ensures var s := Assignment("A") + "theatre\"] = \"A\"";
      Occurs(Rewrite(s, "A", "x["), Assignment("A"))
  {
    var pat, rep, rest := Assignment("A"), Assignment("x["), "theatre\"] = \"A\"";
    var s := pat + rest;
    assert OccursAt(s, 0, pat) && s[|pat|..] == rest;
    ReplaceStep(s, pat, rep);
    assert |rest| < |pat|;
    var out := rep + rest;
    assert Rewrite(s, "A", "x[") == out;
    assert out[16..16 + |pat|] == pat;
    assert OccursAt(out, 16, pat);
  }

  /** Each rewrite turns one old assignment into one new one, so the new assignments
      afterwards are the new ones before plus the old ones replaced. This needs values without
      a quote or a `[` that differ; `MergedAssignmentsUndercount` shows a current value ending
      in `[` for which it fails. */
  lemma {:induction false} RewriteCount(s: string, current: string, target: string)
    requires '"' !in current && '"' !in target && '[' !in current && '[' !in target
    requires current != target
    ensures Count(Rewrite(s, current, target), Assignment(target))
         == Count(s, Assignment(target)) + Count(s, Assignment(current))
    decreases |s|
  {
    var pat, rep := Assignment(current), Assignment(target);
    if |s| < |pat| {
      assert Count(s, pat) == 0 by {
        CountZero(s, pat);
      }
    } else if s[..|pat|] == pat {
      var rest := s[|pat|..];
      var r := ReplaceAll(rest, pat, rep);
      assert Rewrite(s, current, target) == rep + r;
      assert s == pat + rest;
      RewriteCount(rest, current, target);
      assert Count(rep + r, rep) == 1 + Count(r, rep) by {
        AssignmentCount(target, r, target);
      }
      assert Count(s, rep) == Count(rest, rep) by {
        DifferentAssignments(rest, target, current);
        AssignmentCount(current, rest, target);
      }
      assert Count(s, pat) == 1 + Count(rest, pat) by {
        AssignmentCount(current, rest, current);
      }
    } else {
      var r := ReplaceAll(s[1..], pat, rep);
      assert Rewrite(s, current, target) == [s[0]] + r;
      RewriteCount(s[1..], current, target);
      assert ([s[0]] + r)[1..] == r;
      assert OccursAt([s[0]] + r, 0, rep) <==> OccursAt(s, 0, rep) by {
        NewHeadKept(s, current, target);
      }
    }
  }

  /** Past the opening `[` of an assignment whose value holds no `[`, no assignment starts. */
  lemma {:induction false} AssignmentCount(v: string, t: string, w: string)
    requires '[' !in v
    ensures var u := Assignment(v) + t;
      Count(u, Assignment(w)) == (if OccursAt(u, 0, Assignment(w)) then 1 else 0) + Count(t, Assignment(w))
  {
    var a, p := Assignment(v), Assignment(w);
    var u := a + t;
    AssignmentBracket(v);
    PrefixBracket();
    forall q | 0 <= q < |a| - 1 ensures !OccursAt(u[1..], q, p) {
      OccursInTail(u, q, p);
      assert u[q + 1] == a[q + 1];
      Mismatch(u, q + 1, p, 0);
    }
    CountNoneBefore(u[1..], p, |a| - 1);
    assert u[1..][|a| - 1..] == t;
  }

  /** Where the scan copies a character, the output starts with a new assignment exactly
      when the input does. */
  lemma {:induction false} NewHeadKept(s: string, current: string, target: string)
    requires '[' !in target && |s| > 0
    ensures var pat, rep := Assignment(current), Assignment(target);
      OccursAt([s[0]] + ReplaceAll(s[1..], pat, rep), 0, rep) <==> OccursAt(s, 0, rep)
  {
    var pat, rep := Assignment(current), Assignment(target);
    var u, t, w := s[1..], ReplaceAll(s[1..], pat, rep), rep[1..];
    assert pat[0] == '[' && rep[0] == '[' && forall q :: 0 < q < |rep| ==> rep[q] != '[' by {
      AssignmentBracket(target);
      PrefixBracket();
    }
    if OccursAt([s[0]] + t, 0, rep) {
      assert |w| <= |t| && t[..|w|] == w by {
        assert ([s[0]] + t)[1..|rep|] == t[..|w|];
      }
      TailFromInput(u, pat, rep);
      assert s[..|rep|] == [s[0]] + u[..|w|];
    }
    if OccursAt(s, 0, rep) {
      assert u[..|w|] == w by {
        assert s[..|rep|] == [s[0]] + u[..|w|];
      }
      TailToOutput(u, pat, rep);
      assert ([s[0]] + t)[..|rep|] == [s[0]] + t[..|w|];
    }
  }

  /** A replacement that opens with its only `[` cannot supply its own tail: where the
      output starts with that tail, so does the input. */
  lemma {:induction false} TailFromInput(u: string, pat: string, rep: string)
    requires pat != [] && |rep| > 0 && rep[0] == '['
    requires forall q :: 0 < q < |rep| ==> rep[q] != '['
    requires |rep| - 1 <= |ReplaceAll(u, pat, rep)| && ReplaceAll(u, pat, rep)[..|rep| - 1] == rep[1..]
    ensures |rep| - 1 <= |u| && u[..|rep| - 1] == rep[1..]
  {
    var w := rep[1..];
    PrefixKept(u, pat, rep, w);
    forall l | 0 <= l < |w| ensures !Spells(w, l, rep) {
      assert w[l] == rep[l + 1] != rep[l - l];
    }
  }

  /** The tail of such a replacement holds no `[`, so no occurrence of a pattern opening with
      `[` starts in it, and the scan copies it. */
  lemma {:induction false} TailToOutput(u: string, pat: string, rep: string)
    requires pat != [] && pat[0] == '[' && |rep| > 0
    requires forall q :: 0 < q < |rep| ==> rep[q] != '['
    requires |rep| - 1 <= |u| && u[..|rep| - 1] == rep[1..]
    ensures |rep| - 1 <= |ReplaceAll(u, pat, rep)| && ReplaceAll(u, pat, rep)[..|rep| - 1] == rep[1..]
  {
    forall l | 0 <= l < |rep| - 1 ensures !OccursAt(u, l, pat) {
      assert u[l] == u[..|rep| - 1][l] == rep[l + 1];
      Mismatch(u, l, pat, 0);
    }
    PrefixCopied(u, pat, rep, |rep| - 1);
  }

  /** `["theatre"] = "a` followed by the new assignment `["theatre"] = "Y"`: its first 18
      characters are the old assignment for the current value `a[`, whose closing quote is
      the second character of the new assignment. */
  const MergedSample: string := Prefix + "a" + Assignment("Y")

  /** A current value ending in `[` breaks the count: the sample holds one old and one new
      assignment, but its rewrite holds a single new one. */
  lemma {:induction false} MergedAssignmentsUndercount()
    ensures Count(Rewrite(MergedSample, "a[", "Y"), Assignment("Y"))
          < Count(MergedSample, Assignment("Y")) + Count(MergedSample, Assignment("a["))
  {
    MergedSampleSplit();
    MergedRewriteCount();
    MergedSampleCounts();
  }

  /** The sample is the old assignment followed by the rest of the new one. */
  lemma {:induction false} MergedSampleSplit()
    ensures MergedSample == Assignment("a[") + (Prefix[2..] + "Y\"")
  {
    PrefixBracket();
    assert Prefix == Prefix[..2] + Prefix[2..];
    assert Prefix[..2] == "[\"";
  }

  /** The rewrite of the sample holds one new assignment. */
  lemma {:induction false} MergedRewriteCount()
    requires MergedSample == Assignment("a[") + (Prefix[2..] + "Y\"")
    ensures Count(Rewrite(MergedSample, "a[", "Y"), Assignment("Y")) == 1
  {
    var pat, rep, rest := Assignment("a["), Assignment("Y"), Prefix[2..] + "Y\"";
    var s := MergedSample;
    assert OccursAt(s, 0, pat) && s[|pat|..] == rest;
    ReplaceStep(s, pat, rep);
    assert |rest| < |pat|;
    assert Rewrite(s, "a[", "Y") == rep + rest;
    AssignmentCount("Y", rest, "Y");
    CountZero(rest, rep);
  }

  /** The sample holds the old assignment and a new one. */
  lemma {:induction false} MergedSampleCounts()
    requires MergedSample == Assignment("a[") + (Prefix[2..] + "Y\"")
    ensures Count(MergedSample, Assignment("a[")) > 0 && Count(MergedSample, Assignment("Y")) > 0
  {
    var s, pat, rep := MergedSample, Assignment("a["), Assignment("Y");
    assert Count(s, pat) > 0 by {
      assert OccursAt(s, 0, pat);
      CountZero(s, pat);
    }
    assert Count(s, rep) > 0 by {
      var head := Prefix + "a";
      OccursAfter(head, rep, 0, rep);
      CountZero(s, rep);
    }
  }

  /** Past its first character, an assignment holds `["` only as its last two characters,
      where a value ending in `[` meets the closing quote. */
  lemma {:induction false} InnerBracketQuote(current: string, m: nat)
    requires '"' !in current
    requires 0 < m && m + 1 < |Assignment(current)|
    requires Assignment(current)[m] == '[' && Assignment(current)[m + 1] == '"'
    ensures m + 2 == |Assignment(current)|
  {
    PrefixBracket();
  }

  /** A copied character followed by the rewritten rest starts with the old assignment only if
      the original text did. */
  lemma {:induction false} HeadKept(s: string, current: string, target: string)
    requires '"' !in current && |s| > 0
    ensures var pat := Assignment(current);
      OccursAt([s[0]] + ReplaceAll(s[1..], pat, Assignment(target)), 0, pat) ==> OccursAt(s, 0, pat)
  {
    var pat, rep := Assignment(current), Assignment(target);
    var t := ReplaceAll(s[1..], pat, rep);
    if OccursAt([s[0]] + t, 0, pat) {
      var w, u := pat[1..], s[1..];
      assert |w| <= |t| && t[..|w|] == w by {
        assert ([s[0]] + t)[1..|pat|] == t[..|w|];
      }
      assert pat[0] == '[' && pat[1] == '"' && rep[0] == '[' && rep[1] == '"' && pat[|pat| - 1] == '"' by {
        PrefixBracket();
      }
      forall m | 0 < m < |pat| - 1 && pat[m] == '[' && pat[m + 1] == '"' ensures m + 2 == |pat| {
        InnerBracketQuote(current, m);
      }
      TailKept(u, pat, rep);
      assert s[..|pat|] == [s[0]] + u[..|w|];
    }
  }

  /** The old assignment without its opening `[` starts the rewritten text only if it starts
      the original text, for a pattern whose only inner `["` ends it and a replacement that
      opens with `["`. */
  lemma {:induction false} TailKept(u: string, pat: string, rep: string)
    requires |pat| >= 2 && pat[0] == '[' && pat[1] == '"' && pat[|pat| - 1] == '"'
    requires |rep| >= 2 && rep[0] == '[' && rep[1] == '"'
    requires forall m :: 0 < m < |pat| - 1 && pat[m] == '[' && pat[m + 1] == '"' ==> m + 2 == |pat|
    requires |pat| - 1 <= |ReplaceAll(u, pat, rep)| && ReplaceAll(u, pat, rep)[..|pat| - 1] == pat[1..]
    ensures |pat| - 1 <= |u| && u[..|pat| - 1] == pat[1..]
  {
    var w := pat[1..];
    PrefixKept(u, pat, rep, w);
    if !(|w| <= |u| && u[..|w|] == w) {
      var l :| 0 <= l < |w| && OccursAt(u, l, pat) && u[..l] == w[..l] && Spells(w, l, rep);
      ReplacementInside(u, pat, rep, l);
    }
  }

  /** Were a replacement to supply the end of the tail `w` of the old assignment, its opening
      `["` would lie inside the old assignment, which puts it at the old assignment's last two
      characters, where the value ends in `[`; the original text holds those two characters
      there too, so it holds `w` itself. */
  lemma {:induction false} ReplacementInside(u: string, pat: string, rep: string, l: int)
    requires |pat| >= 2 && pat[0] == '[' && pat[1] == '"' && pat[|pat| - 1] == '"'
    requires |rep| >= 2 && rep[0] == '[' && rep[1] == '"'
    requires forall m :: 0 < m < |pat| - 1 && pat[m] == '[' && pat[m + 1] == '"' ==> m + 2 == |pat|
    requires var w := pat[1..];
      && 0 <= l < |w| && OccursAt(u, l, pat) && u[..l] == w[..l] && Spells(w, l, rep)
    ensures |pat| - 1 <= |u| && u[..|pat| - 1] == pat[1..]
  {
    var w := pat[1..];
    assert w[l] == rep[0] == '[';
    assert l + 1 < |w| by {
      assert w[|w| - 1] == pat[|pat| - 1];
    }
    assert w[l + 1] == rep[1] == '"';
    assert pat[l + 1] == '[' && pat[l + 2] == '"';
    assert u[l] == pat[0] && u[l + 1] == pat[1] by {
      assert u[l..l + |pat|] == pat;
    }
    assert u[..|w|] == u[..l] + [u[l], u[l + 1]];
    assert w == w[..l] + [w[l], w[l + 1]];
  }

  /** The first assignment of the text is the first occurrence of its own assignment text. */
  lemma {:induction false} FirstAssignment(s: string, i: int, x: string)
    requires IsValueAt(s, i, x) && NoMatchBefore(s, i)
    ensures OccursAt(s, i, Assignment(x))
    ensures forall j :: 0 <= j < i ==> !OccursAt(s, j, Assignment(x))
  {
    var pat, n := Assignment(x), |Prefix|;
    assert s[i..i + |pat|] == s[i..i + n] + s[i + n..i + n + |x|] + [s[i + n + |x|]];
    forall j | 0 <= j < i ensures !OccursAt(s, j, pat) {
      if OccursAt(s, j, pat) {
        OccurrenceIsValue(s, j, x);
      }
    }
  }

  /** An occurrence of the assignment text of a valid value is an assignment of that value. */
  lemma {:induction false} OccurrenceIsValue(s: string, j: int, x: string)
    requires IsValue(x) && OccursAt(s, j, Assignment(x))
    ensures IsValueAt(s, j, x)
  {
    var pat, n := Assignment(x), |Prefix|;
    var t := s[j..j + |pat|];
    assert t == pat;
    assert s[j..j + n] == t[..n] == Prefix;
    assert s[j + n..j + n + |x|] == t[n..n + |x|] == x;
    assert s[j + n + |x|] == t[n + |x|] == '"';
  }

  /** A text that agrees with `s` up to and including a prefix placed at `i` has no assignment
      before `i` when `s` has none: such an assignment would have to run into the prefix at `i`. */
  lemma {:induction false} NoMatchBeforeKept(s: string, out: string, i: int)
    requires 0 <= i && i + |Prefix| <= |s| && i + |Prefix| <= |out|
    requires out[..i + |Prefix|] == s[..i + |Prefix|]
    requires s[i..i + |Prefix|] == Prefix
    requires NoMatchBefore(s, i)
    ensures NoMatchBefore(out, i)
  {
    var n := |Prefix|;
    PrefixBracket();
    assert out[i] == s[i] == '[' && out[i + 1] == s[i + 1] == '"';
    forall j, w | 0 <= j < i ensures !IsValueAt(out, j, w) {
      var k := j + n + |w|;
      if k < i + n {
        assert !IsValueAt(s, j, w);
        if k < |out| {
          assert out[j..k + 1] == s[j..k + 1];
          assert out[j..j + n] == s[j..j + n];
          assert out[j + n..k] == s[j + n..k];
        }
      } else if i + 1 < j + n {
        assert out[j..j + n][i - j] == out[i] != Prefix[i - j];
      } else if k < |out| {
        assert out[j + n..k][i + 1 - j - n] == '"';
      }
    }
  }

  /** Rewriting the sample from which `current` was read, then reading it again, gives the
      target: the first assignment now holds the target, and nothing before it has changed. */
  lemma {:induction false} ExtractAfterRewrite(s: string, target: string)
    requires Extract(s).Some? && IsValue(target)
    ensures Extract(Rewrite(s, Extract(s).value, target)) == Some(target)
  {
    var x := Extract(s).value;
    var i :| IsValueAt(s, i, x) && NoMatchBefore(s, i);
    var pat, rep := Assignment(x), Assignment(target);
    var n := |Prefix|;
    FirstAssignment(s, i, x);
    ReplaceFirst(s, i, pat, rep);
    var out := Rewrite(s, x, target);
    var rest := ReplaceAll(s[i + |pat|..], pat, rep);
    assert out == s[..i] + rep + rest;
    Spliced(s[..i], rep, rest, out, target);
    assert out[..i + n] == s[..i + n];
    NoMatchBeforeKept(s, out, i);
    ExtractIsFirstMatch(out, target);
  }

  /** Where a new assignment is spliced in after `a`, the text holds that assignment and
      agrees with `a` followed by the prefix up to it. */
  lemma {:induction false} Spliced(a: string, rep: string, rest: string, out: string, target: string)
    requires rep == Assignment(target) && IsValue(target)
    requires out == a + rep + rest
    ensures IsValueAt(out, |a|, target)
    ensures out[..|a| + |Prefix|] == a + Prefix
  {
    var n := |Prefix|;
    assert out[|a|..|a| + n] == Prefix;
    assert out[|a| + n..|a| + n + |target|] == target;
  }
}
