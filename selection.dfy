/** The theatre checklist of the selection window: one flag per entry of `THEATRES`
    (`var_list`), the Select All / Select None buttons, the checkbox clicks, and the list of
    chosen theatres that "Create Files" reads back. */
module Selection {
  import opened Theatres

  /** `[t for t, v in zip(names, flags) if v]`: the names whose flag is set, in list order. */
  function Filter(names: seq<string>, flags: seq<bool>): seq<string>
    requires |names| == |flags|
  {
    if names == [] then []
    else
      var chosen := if flags[|flags| - 1] then [names[|names| - 1]] else [];
      Filter(names[..|names| - 1], flags[..|flags| - 1]) + chosen
  }

  /** `a` is `b` with some entries left out, the rest kept in order. */
  predicate Subsequence(a: seq<string>, b: seq<string>)
    decreases |b|
  {
    if a == [] then true
    else if b == [] then false
    else if a[|a| - 1] == b[|b| - 1] then Subsequence(a[..|a| - 1], b[..|b| - 1])
    else Subsequence(a, b[..|b| - 1])
  }

  /** The chosen names keep the list's order: they are a subsequence of it. */
  lemma {:induction false} FilterIsSubsequence(names: seq<string>, flags: seq<bool>)
    requires |names| == |flags|
    ensures Subsequence(Filter(names, flags), names)
    decreases |names|
  {
    if names != [] {
      var n := |names| - 1;
      var init := Filter(names[..n], flags[..n]);
      FilterIsSubsequence(names[..n], flags[..n]);
      if flags[n] {
        var r := init + [names[n]];
        assert Filter(names, flags) == r;
        assert r[..|r| - 1] == init;
      } else {
        assert Filter(names, flags) == init + [] == init;
        SubsequenceOfLonger(init, names[..n], names[n]);
        assert names[..n] + [names[n]] == names;
      }
    }
  }

  /** A subsequence stays one when the longer sequence grows at the end. */
  lemma {:induction false} SubsequenceOfLonger(a: seq<string>, b: seq<string>, x: string)
    requires Subsequence(a, b)
    ensures Subsequence(a, b + [x])
    decreases |b|, 1
  {
    assert (b + [x])[..|b|] == b;
    if a != [] && a[|a| - 1] == x {
      SubsequenceDropLast(a, b);
    }
  }

  /** Dropping the last element of a subsequence leaves a subsequence. */
  lemma {:induction false} SubsequenceDropLast(a: seq<string>, b: seq<string>)
    requires a != [] && Subsequence(a, b)
    ensures Subsequence(a[..|a| - 1], b)
    decreases |b|, 0
  {
    var a', b' := a[..|a| - 1], b[..|b| - 1];
    if a[|a| - 1] != b[|b| - 1] {
      SubsequenceDropLast(a, b');
    }
    SubsequenceOfLonger(a', b', b[|b| - 1]);
    assert b' + [b[|b| - 1]] == b;
  }

  /** A name is chosen exactly when some entry with that name has its flag set. */
  lemma {:induction false} FilterMembers(names: seq<string>, flags: seq<bool>)
    requires |names| == |flags|
    ensures forall t :: t in Filter(names, flags) <==> exists i :: 0 <= i < |names| && names[i] == t && flags[i]
    decreases |names|
  {
    if names != [] {
      var n := |names| - 1;
      FilterMembers(names[..n], flags[..n]);
      forall t ensures t in Filter(names, flags) <==> exists i :: 0 <= i < |names| && names[i] == t && flags[i] {
        if exists i :: 0 <= i < n && names[..n][i] == t && flags[..n][i] {
          var i :| 0 <= i < n && names[..n][i] == t && flags[..n][i];
          assert names[i] == t && flags[i];
        }
        if i :| 0 <= i < |names| && names[i] == t && flags[i] {
          if i < n {
            assert names[..n][i] == t && flags[..n][i];
          }
        }
      }
    }
  }

  /** Nothing is chosen exactly when every flag is clear. */
  lemma {:induction false} FilterEmpty(names: seq<string>, flags: seq<bool>)
    requires |names| == |flags|
    ensures Filter(names, flags) == [] <==> forall i :: 0 <= i < |flags| ==> !flags[i]
    decreases |names|
  {
    if names != [] {
      var n := |names| - 1;
      FilterEmpty(names[..n], flags[..n]);
      assert forall i :: 0 <= i < n ==> flags[..n][i] == flags[i];
    }
  }

  /** With every flag set, the whole list is chosen. */
  lemma {:induction false} FilterAll(names: seq<string>, flags: seq<bool>)
    requires |names| == |flags| && forall i :: 0 <= i < |flags| ==> flags[i]
    ensures Filter(names, flags) == names
    decreases |names|
  {
    if names != [] {
      var n := |names| - 1;
      FilterAll(names[..n], flags[..n]);
      assert names[..n] + [names[n]] == names;
    }
  }

  /** The checkbox flags of the selection window. */
  class Checklist {
    /** `var_list`: one flag per theatre, in `THEATRES` order. */
    var flags: array<bool>

    /** There is one flag per theatre. */
    ghost predicate Valid()
      reads this
    {
      flags.Length == |THEATRES|
    }

    /** The window opens with every box unchecked (`tk.BooleanVar()` starts false). */
    constructor ()
      ensures Valid() && fresh(flags)
      ensures forall i :: 0 <= i < flags.Length ==> !flags[i]
    {
      flags := new bool[|THEATRES|](_ => false);
    }

    /** "Select All": every box checked. */
    method SelectAll()
      requires Valid()
      modifies flags
      ensures Valid()
      ensures forall i :: 0 <= i < flags.Length ==> flags[i]
    {
      for i := 0 to flags.Length
        invariant forall k :: 0 <= k < i ==> flags[k]
      {
        flags[i] := true;
      }
    }

    /** "Select None": every box unchecked. */
    method SelectNone()
      requires Valid()
      modifies flags
      ensures Valid()
      ensures forall i :: 0 <= i < flags.Length ==> !flags[i]
    {
      for i := 0 to flags.Length
        invariant forall k :: 0 <= k < i ==> !flags[k]
      {
        flags[i] := false;
      }
    }

    /** A click on the box of theatre `i` flips its flag and no other. */
    method Toggle(i: nat)
      requires Valid() && i < flags.Length
      modifies flags
      ensures Valid()
      ensures flags[..] == old(flags[..])[i := !old(flags[i])]
    {
      flags[i] := !flags[i];
    }

    /** The comprehension in `on_create`: the checked theatres, in `THEATRES` order. */
    method Selected() returns (selected: seq<string>)
      requires Valid()
      ensures selected == Filter(THEATRES, flags[..])
    {
      selected := [];
      for i := 0 to flags.Length
        invariant selected == Filter(THEATRES[..i], flags[..i])
      {
        if flags[i] {
          selected := selected + [THEATRES[i]];
        }
        assert THEATRES[..i + 1][..i] == THEATRES[..i];
        assert flags[..i + 1][..i] == flags[..i];
      }
      assert THEATRES[..flags.Length] == THEATRES;
      assert flags[..flags.Length] == flags[..];
    }
  }
}
