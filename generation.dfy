/** The generation step (`save_modified_files`): for every loaded template and every
    selected theatre, write the rewritten template as `{theatre}-{basename}` into the
    chosen directory, and list the names created. */
module Generation {
  import opened Wrappers
  import opened Paths
  import opened FileSet
  import opened TheatreField
  import opened Replace
  import opened Transform

  /** One file written: where, and what. */
  datatype Output = Output(path: string, content: string)

  /** The directory dialog was dismissed, or the names listed in the success message and the
      writes made, in order. */
  datatype SaveOutcome = NoDirectory | Created(names: seq<string>, written: seq<Output>)

  /** The file name of a copy: `f"{theatre}-{base}"`. */
  function OutputName(theatre: string, base: string): string {
    theatre + "-" + base
  }

  /** The write for template `e` and theatre `theatre`. */
  function Emit(dir: string, e: Entry, theatre: string, current: string): Output {
    Output(Join(dir, OutputName(theatre, Basename(e.path))), Rewrite(e.content, current, theatre))
  }

  /** The writes for one template, one per selected theatre, in selection order. */
  function FileWrites(dir: string, e: Entry, selected: seq<string>, current: string): seq<Output> {
    if selected == [] then []
    else FileWrites(dir, e, selected[..|selected| - 1], current) + [Emit(dir, e, selected[|selected| - 1], current)]
  }

  /** All writes: template by template in dict order, each followed by its theatres. */
  function Plan(dir: string, files: seq<Entry>, selected: seq<string>, current: string): seq<Output> {
    if files == [] then []
    else Plan(dir, files[..|files| - 1], selected, current) + FileWrites(dir, files[|files| - 1], selected, current)
  }

  /** `created`: the base name of every path written, in order. */
  function Names(written: seq<Output>): seq<string> {
    if written == [] then []
    else Names(written[..|written| - 1]) + [Basename(written[|written| - 1].path)]
  }

  /** One more write adds its base name at the end of `created`. */
  lemma {:induction false} NamesSnoc(w: seq<Output>, o: Output)
    ensures Names(w + [o]) == Names(w) + [Basename(o.path)]
  {
    assert (w + [o])[..|w|] == w;
  }

  /** One more theatre adds its copy at the end of a template's copies. */
  lemma {:induction false} FileWritesSnoc(dir: string, e: Entry, selected: seq<string>, j: nat, current: string)
    requires j < |selected|
    ensures FileWrites(dir, e, selected[..j + 1], current)
         == FileWrites(dir, e, selected[..j], current) + [Emit(dir, e, selected[j], current)]
  {
    assert selected[..j + 1][..j] == selected[..j];
  }

  /** One more template adds its copies at the end of the plan. */
  lemma {:induction false} PlanSnoc(dir: string, files: seq<Entry>, i: nat, selected: seq<string>, current: string)
    requires i < |files|
    ensures Plan(dir, files[..i + 1], selected, current)
         == Plan(dir, files[..i], selected, current) + FileWrites(dir, files[i], selected, current)
  {
    assert files[..i + 1][..i] == files[..i];
  }

  /** The inner loop of `save_modified_files` for one template: one rewritten copy per selected
      theatre, each appended to the writes and its base name to `created`. */
  method WriteCopies(saveDir: string, e: Entry, selected: seq<string>, current: string,
                     written: seq<Output>, created: seq<string>)
    returns (written': seq<Output>, created': seq<string>)
    requires created == Names(written)
    ensures written' == written + FileWrites(saveDir, e, selected, current)
    ensures created' == Names(written')
  {
    written', created' := written, created;
    var base := Basename(e.path);
    assert selected[..0] == [];
    for j := 0 to |selected|
      invariant written' == written + FileWrites(saveDir, e, selected[..j], current)
      invariant created' == Names(written')
    {
      var theatre := selected[j];
      var newContent := Rewrite(e.content, current, theatre);
      var newPath := Join(saveDir, OutputName(theatre, base));
      var o := Output(newPath, newContent);
      FileWritesSnoc(saveDir, e, selected, j, current);
      NamesSnoc(written', o);
      Assoc(written, FileWrites(saveDir, e, selected[..j], current), [o]);
      written' := written' + [o];
      created' := created' + [Basename(newPath)];
    }
    assert selected[..|selected|] == selected;
  }

  /** What `save_modified_files` does with the directory dialog's answer: a dismissed dialog
      (no answer, or the empty text `askdirectory` gives on cancel) writes nothing; a directory
      receives the copies of every template for every theatre, each listed by its base name. */
  function Save(files: seq<Entry>, selected: seq<string>, current: string, dir: Option<string>): (r: SaveOutcome)
    ensures r.NoDirectory? <==> dir.None? || dir.value == []
    ensures r.Created? ==>
      && |r.written| == |files| * |selected|
      && |r.names| == |r.written|
      && forall k :: 0 <= k < |r.written| ==> r.names[k] == Basename(r.written[k].path)
  {
    if dir.None? || dir.value == [] then NoDirectory
    else
      var written := Plan(dir.value, files, selected, current);
      PlanLength(dir.value, files, selected, current);
      NamesAt(written);
      Created(Names(written), written)
  }

  /** `save_modified_files`: the loops over the templates and the theatres carry out `Save`. */
  method SaveModifiedFiles(files: seq<Entry>, selected: seq<string>, current: string, dir: Option<string>)
    returns (outcome: SaveOutcome)
    ensures outcome == Save(files, selected, current, dir)
  {
    if dir.None? || dir.value == [] {
      return NoDirectory;
    }
    var saveDir := dir.value;
    var created: seq<string> := [];
    var written: seq<Output> := [];
    for i := 0 to |files|
      invariant written == Plan(saveDir, files[..i], selected, current)
      invariant created == Names(written)
    {
      written, created := WriteCopies(saveDir, files[i], selected, current, written, created);
      PlanSnoc(saveDir, files, i, selected, current);
    }
    assert files[..|files|] == files;
    return Created(created, written);
  }

  /** The copies of one template: one per theatre, in selection order. */
  lemma {:induction false} FileWritesAt(dir: string, e: Entry, selected: seq<string>, current: string)
    ensures |FileWrites(dir, e, selected, current)| == |selected|
    ensures forall j :: 0 <= j < |selected| ==>
      FileWrites(dir, e, selected, current)[j] == Emit(dir, e, selected[j], current)
  {
    if selected != [] {
      var n := |selected| - 1;
      var init := selected[..n];
      FileWritesAt(dir, e, init, current);
      var w := FileWrites(dir, e, selected, current);
      assert w == FileWrites(dir, e, init, current) + [Emit(dir, e, selected[n], current)];
      forall j | 0 <= j < |selected| ensures w[j] == Emit(dir, e, selected[j], current) {
        if j < n {
          assert selected[j] == init[j];
        }
      }
    }
  }

  /** One more template adds one more row of `k` copies. */
  lemma {:induction false} MulStep(n: nat, k: nat)
    ensures (n + 1) * k == n * k + k
  {
  }

  /** The generation step writes |files| x |selected| copies. */
  lemma {:induction false} PlanLength(dir: string, files: seq<Entry>, selected: seq<string>, current: string)
    ensures |Plan(dir, files, selected, current)| == |files| * |selected|
  {
    if files != [] {
      PlanLength(dir, files[..|files| - 1], selected, current);
      FileWritesAt(dir, files[|files| - 1], selected, current);
      MulStep(|files| - 1, |selected|);
    }
  }

  /** The copies come file-major, then theatre-minor: the copy at `i * |selected| + j` is
      template `i` retargeted to theatre `j`. */
  lemma {:induction false} PlanAt(dir: string, files: seq<Entry>, selected: seq<string>, current: string, i: nat, j: nat)
    requires i < |files| && j < |selected|
    ensures i * |selected| + j < |Plan(dir, files, selected, current)|
    ensures Plan(dir, files, selected, current)[i * |selected| + j] == Emit(dir, files[i], selected[j], current)
  {
    var n, k := |files| - 1, |selected|;
    var init := files[..n];
    var front, last := Plan(dir, init, selected, current), FileWrites(dir, files[n], selected, current);
    assert Plan(dir, files, selected, current) == front + last;
    assert |front| == n * k by {
      PlanLength(dir, init, selected, current);
    }
    assert |last| == k && last[j] == Emit(dir, files[n], selected[j], current) by {
      FileWritesAt(dir, files[n], selected, current);
    }
    if i < n {
      PlanAt(dir, init, selected, current, i, j);
      assert init[i] == files[i];
    } else {
      assert i * k + j == |front| + j;
    }
  }

  /** `created` lists the base name of every write, in order. */
  lemma {:induction false} NamesAt(written: seq<Output>)
    ensures |Names(written)| == |written|
    ensures forall k :: 0 <= k < |written| ==> Names(written)[k] == Basename(written[k].path)
  {
    if written != [] {
      NamesAt(written[..|written| - 1]);
    }
  }

  /** With theatres that hold no `/`, the copy of template `i` for theatre `j` is written
      under the base name `{theatre}-{base}`, which is what `created` lists for it. */
  lemma {:induction false} CreatedName(dir: string, files: seq<Entry>, selected: seq<string>, current: string, i: nat, j: nat)
    requires i < |files| && j < |selected|
    requires '/' !in selected[j]
    ensures var plan := Plan(dir, files, selected, current);
      var idx := i * |selected| + j;
      idx < |plan| && Basename(plan[idx].path) == OutputName(selected[j], Basename(files[i].path))
  {
    PlanAt(dir, files, selected, current, i, j);
    EmitName(dir, files[i], selected[j], current);
  }

  /** A copy's base name is `{theatre}-{base}` when the theatre holds no `/`. */
  lemma {:induction false} EmitName(dir: string, e: Entry, theatre: string, current: string)
    requires '/' !in theatre
    ensures Basename(Emit(dir, e, theatre, current).path) == OutputName(theatre, Basename(e.path))
  {
    BasenameMeaning(e.path);
    BasenameOfJoin(dir, OutputName(theatre, Basename(e.path)));
  }

  /** What the output directory holds after the writes: a later write to the same path
      replaces the earlier one. */
  function Directory(written: seq<Output>): map<string, string> {
    if written == [] then map[]
    else Directory(written[..|written| - 1])[written[|written| - 1].path := written[|written| - 1].content]
  }

  /** Every written path is a file of the directory, and holds the content of the last write to it. */
  lemma {:induction false} LastWriteWins(written: seq<Output>, k: nat)
    requires k < |written|
    requires forall k' :: k < k' < |written| ==> written[k'].path != written[k].path
    ensures written[k].path in Directory(written)
    ensures Directory(written)[written[k].path] == written[k].content
  {
    if k < |written| - 1 {
      var init := written[..|written| - 1];
      LastWriteWins(init, k);
    }
  }

  /** The copies of the template the current theatre was read from: the `j`-th write is the
      copy for the `j`-th selected theatre, listed as `{theatre}-{basename}`, and reading the
      theatre back from it gives that theatre. */
  lemma {:induction false} CopiesOfFirstTemplate(dir: string, files: seq<Entry>, selected: seq<string>, current: string, j: nat)
    requires files != [] && j < |selected|
    requires '/' !in selected[j] && IsValue(selected[j])
    requires Extract(files[0].content) == Some(current)
    ensures var written := Plan(dir, files, selected, current);
      var name := OutputName(selected[j], Basename(files[0].path));
      |written| == |files| * |selected| && j < |written| && |Names(written)| == |written| &&
      written[j].path == Join(dir, name) && Names(written)[j] == name &&
      Extract(written[j].content) == Some(selected[j])
  {
    var written := Plan(dir, files, selected, current);
    var copy := Emit(dir, files[0], selected[j], current);
    assert |written| == |files| * |selected| && j < |written| && written[j] == copy by {
      PlanLength(dir, files, selected, current);
      PlanAt(dir, files, selected, current, 0, j);
    }
    assert |Names(written)| == |written| && Names(written)[j] == Basename(copy.path) by {
      NamesAt(written);
    }
    EmitName(dir, files[0], selected[j], current);
    assert Extract(copy.content) == Some(selected[j]) by {
      ExtractAfterRewrite(files[0].content, selected[j]);
    }
  }
}
