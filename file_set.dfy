/** The loaded templates (`load_files`): the `content_map` dict from path to text, filled in
    the order the paths were chosen. */
module FileSet {
  import opened Wrappers

  /** One `content_map` item: a chosen path and the text read from it. */
  datatype Entry = Entry(path: string, content: string)

  /** Why loading stops the tool. */
  datatype LoadError = NoFilesSelected | ReadFailed(path: string)

  /** The loaded dict, or the error that made the tool exit. */
  datatype LoadResult = Loaded(files: seq<Entry>) | LoadFailed(error: LoadError)

  /** The keys of the dict, in insertion order. */
  function Keys(m: seq<Entry>): seq<string> {
    seq(|m|, i requires 0 <= i < |m| => m[i].path)
  }

  /** Putting an item in front puts its key in front. */
  lemma {:induction false} KeysCons(e: Entry, m: seq<Entry>)
    ensures Keys([e] + m) == [e.path] + Keys(m)
  {
  }

  /** No key appears twice. */
  ghost predicate Distinct(keys: seq<string>) {
    forall i, j :: 0 <= i < j < |keys| ==> keys[i] != keys[j]
  }

  /** `content_map[path] = content`. */
  function Put(m: seq<Entry>, path: string, content: string): seq<Entry> {
    if m == [] then [Entry(path, content)]
    else if m[0].path == path then [Entry(path, content)] + m[1..]
    else [m[0]] + Put(m[1..], path, content)
  }

  /** Dict assignment: a new key goes to the end, an existing key keeps its place and takes
      the new value, and every other item is untouched. */
  lemma {:induction false} PutMeaning(m: seq<Entry>, path: string, content: string)
    ensures var r := Put(m, path, content);
      && Keys(r) == (if path in Keys(m) then Keys(m) else Keys(m) + [path])
      && Entry(path, content) in r
      && (forall e :: e in r ==> e in m || e == Entry(path, content))
      && (forall e :: e in m && e.path != path ==> e in r)
  {
    if m != [] {
      assert m == [m[0]] + m[1..];
      KeysCons(m[0], m[1..]);
      if m[0].path == path {
        KeysCons(Entry(path, content), m[1..]);
      } else {
        PutMeaning(m[1..], path, content);
        KeysCons(m[0], Put(m[1..], path, content));
      }
    }
  }

  /** The loop of `load_files` from the `i`-th chosen path on, with `m` the dict so far:
      the first unreadable file stops it. `read` gives a file's text, or nothing when
      opening or reading it raises. */
  function LoadFrom(paths: seq<string>, read: string -> Option<string>, i: nat, m: seq<Entry>): LoadResult
    requires i <= |paths|
    decreases |paths| - i
  {
    if i == |paths| then Loaded(m)
    else match read(paths[i])
      case None => LoadFailed(ReadFailed(paths[i]))
      case Some(c) => LoadFrom(paths, read, i + 1, Put(m, paths[i], c))
  }

  /** `load_files`: no chosen file is an error; otherwise read them all in order. */
  function Load(paths: seq<string>, read: string -> Option<string>): LoadResult {
    if paths == [] then LoadFailed(NoFilesSelected) else LoadFrom(paths, read, 0, [])
  }

  /** `load_files` as the loop it is. */
  method LoadFiles(paths: seq<string>, read: string -> Option<string>) returns (r: LoadResult)
    ensures r == Load(paths, read)
  {
    if |paths| == 0 {
      return LoadFailed(NoFilesSelected);
    }
    var m: seq<Entry> := [];
    for i := 0 to |paths|
      invariant LoadFrom(paths, read, i, m) == Load(paths, read)
    {
      var c := read(paths[i]);
      if c.None? {
        return LoadFailed(ReadFailed(paths[i]));
      }
      m := Put(m, paths[i], c.value);
    }
    return Loaded(m);
  }

  /** What the loop keeps true of the dict after the first `i` paths. */
  ghost predicate LoadedSoFar(paths: seq<string>, read: string -> Option<string>, i: nat, m: seq<Entry>)
    requires i <= |paths|
  {
    Distinct(Keys(m)) &&
    (forall p :: p in Keys(m) <==> p in paths[..i]) &&
    (forall e :: e in m ==> read(e.path) == Some(e.content)) &&
    (Distinct(paths) ==> Keys(m) == paths[..i]) &&
    (if i == 0 then m == [] else |m| > 0 && m[0].path == paths[0])
  }

  /** `paths[k]` is the first path at or after index `i` that cannot be read. */
  ghost predicate FirstUnreadable(paths: seq<string>, read: string -> Option<string>, i: nat, k: int) {
    i <= k < |paths| && read(paths[k]).None? && forall j :: i <= j < k ==> read(paths[j]).Some?
  }

  /** Putting a key keeps the keys distinct. */
  lemma {:induction false} PutDistinct(m: seq<Entry>, path: string, content: string)
    requires Distinct(Keys(m))
    ensures Distinct(Keys(Put(m, path, content)))
  {
    var ks, ks' := Keys(m), Keys(Put(m, path, content));
    PutMeaning(m, path, content);
    if path !in ks {
      forall i, j | 0 <= i < j < |ks'| ensures ks'[i] != ks'[j] {
        if j == |ks| {
          assert ks'[i] == ks[i] && ks[i] in ks;
        }
      }
    }
  }

  /** One more readable file keeps the loop's facts. */
  lemma {:induction false} LoadStep(paths: seq<string>, read: string -> Option<string>, i: nat, m: seq<Entry>)
    requires i < |paths| && LoadedSoFar(paths, read, i, m) && read(paths[i]).Some?
    ensures LoadedSoFar(paths, read, i + 1, Put(m, paths[i], read(paths[i]).value))
  {
    var m' := Put(m, paths[i], read(paths[i]).value);
    assert paths[..i + 1] == paths[..i] + [paths[i]];
    PutMeaning(m, paths[i], read(paths[i]).value);
    PutDistinct(m, paths[i], read(paths[i]).value);
    assert Keys(m')[0] == m'[0].path;
    if Distinct(paths) {
      assert paths[i] !in paths[..i];
    }
  }

  /** The loop runs to the end exactly when every remaining file can be read. */
  lemma {:induction false} LoadFromSucceeds(paths: seq<string>, read: string -> Option<string>, i: nat, m: seq<Entry>)
    requires i <= |paths|
    ensures LoadFrom(paths, read, i, m).Loaded? <==> forall k :: i <= k < |paths| ==> read(paths[k]).Some?
    decreases |paths| - i
  {
    if i < |paths| && read(paths[i]).Some? {
      LoadFromSucceeds(paths, read, i + 1, Put(m, paths[i], read(paths[i]).value));
    }
  }

  /** When the loop fails, it names the first unreadable file. */
  lemma {:induction false} LoadFromFails(paths: seq<string>, read: string -> Option<string>, i: nat, m: seq<Entry>)
    requires i <= |paths| && LoadFrom(paths, read, i, m).LoadFailed?
    ensures exists k :: FirstUnreadable(paths, read, i, k) && LoadFrom(paths, read, i, m).error == ReadFailed(paths[k])
    decreases |paths| - i
  {
    if read(paths[i]).Some? {
      var m' := Put(m, paths[i], read(paths[i]).value);
      LoadFromFails(paths, read, i + 1, m');
      var k :| FirstUnreadable(paths, read, i + 1, k) && LoadFrom(paths, read, i + 1, m').error == ReadFailed(paths[k]);
      assert FirstUnreadable(paths, read, i, k);
    } else {
      assert FirstUnreadable(paths, read, i, i);
    }
  }

  /** When the loop runs to the end, its facts hold of the whole dict. */
  lemma {:induction false} LoadFromLoaded(paths: seq<string>, read: string -> Option<string>, i: nat, m: seq<Entry>)
    requires i <= |paths| && LoadedSoFar(paths, read, i, m) && LoadFrom(paths, read, i, m).Loaded?
    ensures LoadedSoFar(paths, read, |paths|, LoadFrom(paths, read, i, m).files)
    decreases |paths| - i
  {
    if i < |paths| {
      assert read(paths[i]).Some?;
      var m' := Put(m, paths[i], read(paths[i]).value);
      assert LoadFrom(paths, read, i, m) == LoadFrom(paths, read, i + 1, m');
      LoadStep(paths, read, i, m);
      LoadFromLoaded(paths, read, i + 1, m');
    }
  }

  /** What loading guarantees: it fails without a choice of files or at the first file that
      cannot be read; otherwise every chosen path is a key exactly once and holds that file's
      text, the first chosen path is the first key, and paths chosen once each are the keys in
      the order chosen. */
  lemma {:induction false} LoadMeaning(paths: seq<string>, read: string -> Option<string>)
    ensures Load(paths, read) == LoadFailed(NoFilesSelected) <==> paths == []
    ensures Load(paths, read).Loaded? <==> paths != [] && forall p :: p in paths ==> read(p).Some?
    ensures Load(paths, read).Loaded? ==> var fs := Load(paths, read).files;
      fs != [] && fs[0].path == paths[0] && Distinct(Keys(fs)) &&
      (forall p :: p in Keys(fs) <==> p in paths) &&
      (forall e :: e in fs ==> read(e.path) == Some(e.content)) &&
      (Distinct(paths) ==> Keys(fs) == paths)
    ensures Load(paths, read).LoadFailed? && paths != [] ==>
      exists k :: FirstUnreadable(paths, read, 0, k) && Load(paths, read).error == ReadFailed(paths[k])
  {
    if paths != [] {
      assert paths[..0] == [];
      LoadFromSucceeds(paths, read, 0, []);
      if Load(paths, read).Loaded? {
        LoadFromLoaded(paths, read, 0, []);
      } else {
        LoadFromFails(paths, read, 0, []);
      }
      assert paths[..|paths|] == paths;
    }
  }
}
