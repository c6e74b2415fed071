/** The `["theatre"] = "<value>"` assignment of a mission template, and the
    search that reads the current theatre out of a template's text
    (`get_current_theatre`, a `re.search` for `\["theatre"\] = \"(.*?)\"`). */
module TheatreField {
  import opened Wrappers

  /** The literal text that opens the assignment, up to and including the opening quote. */
  const Prefix: string := "[\"theatre\"] = \""

  /** A value the lazy group `(.*?)` can capture before the closing quote: it stops at the
      first quote, and `.` does not match a line break. */
  predicate IsValue(v: string) {
    '"' !in v && '\n' !in v
  }

  /** `s` holds, at index `i`, a complete assignment whose captured value is `v`. */
  predicate IsValueAt(s: string, i: int, v: string) {
    0 <= i && i + |Prefix| + |v| < |s| &&
    s[i..i + |Prefix|] == Prefix &&
    s[i + |Prefix|..i + |Prefix| + |v|] == v &&
    s[i + |Prefix| + |v|] == '"' &&
    IsValue(v)
  }

  /** No assignment starts at an index in `[lo, hi)`. */
  ghost predicate NoMatchBetween(s: string, lo: int, hi: int) {
    forall j, w :: lo <= j < hi ==> !IsValueAt(s, j, w)
  }

  /** No assignment starts before index `i`. */
  ghost predicate NoMatchBefore(s: string, i: int) {
    NoMatchBetween(s, 0, i)
  }

  /** The regex character `[` opens the prefix and occurs nowhere else in it. */
  lemma {:induction false} PrefixBracket()
    ensures |Prefix| == 15 && Prefix[0] == '[' && Prefix[1] == '"'
    ensures forall m :: 0 < m < |Prefix| ==> Prefix[m] != '['
  {
  }

  /** At one index the capture is determined: it runs exactly up to the first quote. */
  lemma {:induction false} ValueUnique(s: string, i: int, v: string, w: string)
    requires IsValueAt(s, i, v) && IsValueAt(s, i, w)
    ensures v == w
  {
  }

  /** The lazy group: from index `j`, the index of the first quote, provided no line
      break comes before it. */
  function CloseQuote(s: string, j: nat): (r: Option<nat>)
    decreases |s| - j
    ensures r.Some? ==> j <= r.value < |s| && s[r.value] == '"' && IsValue(s[j..r.value])
    ensures r.None? ==> forall k :: j <= k < |s| && s[k] == '"' ==> '\n' in s[j..k]
  {
    if j >= |s| then None
    else if s[j] == '"' then Some(j)
    else if s[j] == '\n' then None
    else
      var r := CloseQuote(s, j + 1);
      assert r.Some? ==> s[j..r.value] == [s[j]] + s[j + 1..r.value];
      assert forall k :: j + 1 <= k < |s| ==> s[j..k] == [s[j]] + s[j + 1..k];
      r
  }

  /** An opening prefix at `i` whose value is never closed on its line yields no match at `i`. */
  lemma {:induction false} UnclosedNoMatch(s: string, i: nat, w: string)
    requires i + |Prefix| <= |s|
    requires CloseQuote(s, i + |Prefix|).None?
    ensures !IsValueAt(s, i, w)
  {
  }

  /** The scan of `re.search`: the first index at or after `i` where the pattern matches,
      and the group it captures there. */
  function SearchFrom(s: string, i: nat): (r: Option<string>)
    decreases |s| - i
    ensures r.Some? ==> exists k :: i <= k && IsValueAt(s, k, r.value) && NoMatchBetween(s, i, k)
    ensures r.None? ==> NoMatchBetween(s, i, |s|)
  {
    if i + |Prefix| >= |s| then None
    else if s[i..i + |Prefix|] == Prefix then
      match CloseQuote(s, i + |Prefix|)
      case Some(k) =>
        assert IsValueAt(s, i, s[i + |Prefix|..k]);
        Some(s[i + |Prefix|..k])
      case None =>
        SkipNoMatch(s, i);
        SearchFrom(s, i + 1)
    else
      SkipNoMatch(s, i);
      SearchFrom(s, i + 1)
  }

  /** Where no prefix starts, or the value it opens is never closed, the scan moves on. */
  lemma {:induction false} SkipNoMatch(s: string, i: nat)
    requires i + |Prefix| < |s|
    requires s[i..i + |Prefix|] == Prefix ==> CloseQuote(s, i + |Prefix|).None?
    ensures forall k :: NoMatchBetween(s, i + 1, k) ==> NoMatchBetween(s, i, k)
  {
    forall w ensures !IsValueAt(s, i, w) {
      if s[i..i + |Prefix|] == Prefix {
        UnclosedNoMatch(s, i, w);
      }
    }
  }

  /** `get_current_theatre`: the value of the first assignment in the text, or nothing. */
  function Extract(s: string): (r: Option<string>)
    ensures r.Some? ==> IsValue(r.value) && exists i :: IsValueAt(s, i, r.value) && NoMatchBefore(s, i)
    ensures r.None? <==> forall i, v :: !IsValueAt(s, i, v)
  {
    SearchFrom(s, 0)
  }

  /** Extraction returns `v` exactly when the first assignment of the text holds `v`. */
  lemma {:induction false} ExtractIsFirstMatch(s: string, v: string)
    ensures Extract(s) == Some(v) <==> exists i :: IsValueAt(s, i, v) && NoMatchBefore(s, i)
  {
    if i :| IsValueAt(s, i, v) && NoMatchBefore(s, i) {
      var r := Extract(s);
      var k :| IsValueAt(s, k, r.value) && NoMatchBefore(s, k);
      assert k == i;
      ValueUnique(s, i, v, r.value);
    }
  }
}
