/** The two POSIX path operations the duplicator uses, `os.path.basename` and `os.path.join`. */
module Paths {

  /** `os.path.basename`: the text after the last `/`. */
  function Basename(p: string): string {
    if p == [] || p[|p| - 1] == '/' then [] else Basename(p[..|p| - 1]) + [p[|p| - 1]]
  }

  /** The basename is the longest suffix without a `/`: a suffix, free of `/`, and either the
      whole path or preceded by a `/`. */
  lemma {:induction false} BasenameMeaning(p: string)
    ensures var r := Basename(p);
      && |r| <= |p| && r == p[|p| - |r|..]
      && '/' !in r
      && (|r| < |p| ==> p[|p| - |r| - 1] == '/')
  {
    if p != [] && p[|p| - 1] != '/' {
      var q, c := p[..|p| - 1], p[|p| - 1];
      var r := Basename(q);
      BasenameMeaning(q);
      assert Basename(p) == r + [c];
      assert p[|p| - |r| - 1..] == q[|q| - |r|..] + [c];
      if |r| < |q| {
        assert p[|p| - |r| - 2] == q[|q| - |r| - 1];
      }
    }
  }

  /** `os.path.join(dir, name)`: an absolute `name` replaces `dir`; otherwise a `/` is
      inserted unless `dir` is empty or already ends with one. */
  function Join(dir: string, name: string): string {
    if name != [] && name[0] == '/' then name
    else if dir == [] || dir[|dir| - 1] == '/' then dir + name
    else dir + "/" + name
  }

  /** A `/`-free suffix that is either the whole path or preceded by a `/` is the basename. */
  lemma {:induction false} BasenameIs(q: string, name: string)
    requires |name| <= |q| && q[|q| - |name|..] == name && '/' !in name
    requires |name| < |q| ==> q[|q| - |name| - 1] == '/'
    ensures Basename(q) == name
  {
    BasenameMeaning(q);
  }

  /** The name of a file joined onto a directory is the file name again, so the list of
      created files shows `{theatre}-{base}`. */
  lemma {:induction false} BasenameOfJoin(dir: string, name: string)
    requires '/' !in name
    ensures Basename(Join(dir, name)) == name
  {
    var q := Join(dir, name);
    if name != [] && name[0] == '/' {
    } else if dir == [] || dir[|dir| - 1] == '/' {
      assert q[|q| - |name|..] == name;
      if dir != [] {
        assert q[|q| - |name| - 1] == dir[|dir| - 1];
      }
      BasenameIs(q, name);
    } else {
      assert q == dir + "/" + name;
      assert q[|q| - |name|..] == name;
      assert q[|q| - |name| - 1] == '/';
      BasenameIs(q, name);
    }
  }
}
