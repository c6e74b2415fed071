/** One run of the duplicator (`main`): load the chosen templates, read the theatre of the first
    one, let the user tick theatres in the selection window, and generate the copies when
    "Create Files" is pressed with at least one theatre ticked. The dialogs and the window's
    clicks are inputs: the chosen paths, a read function, the sequence of window events and
    the answer of the directory dialog. */
module Session {
  import opened Wrappers
  import opened Theatres
  import opened TheatreField
  import opened Paths
  import opened FileSet
  import opened Generation
  import opened Selection

  /** What the user does in the selection window. */
  datatype Event = Toggle(box: nat) | SelectAll | SelectNone | CreateFiles | CloseWindow

  /** How the selection window ends: "Create Files" with this selection, closed, or still open
      when the events run out. */
  datatype DialogEnd = Confirmed(selected: seq<string>) | Closed | Open

  /** How the run ends. `Aborted`: `load_files` showed an error and exited; `NoTheatreFound`:
      the first template has no theatre assignment; `Cancelled`: the window was closed;
      `StillOpen`: the window is still waiting; `Saved`: the selection was confirmed and
      `save_modified_files` ran. */
  datatype Outcome =
    | Aborted(error: LoadError)
    | NoTheatreFound
    | Cancelled
    | StillOpen
    | Saved(selected: seq<string>, result: SaveOutcome)

  /** Every checkbox clicked is one of the thirteen in the window. */
  predicate ValidEvents(events: seq<Event>) {
    forall k :: 0 <= k < |events| && events[k].Toggle? ==> events[k].box < |THEATRES|
  }

  /** The events after the first are valid too. */
  lemma {:induction false} RestValid(events: seq<Event>)
    requires events != [] && ValidEvents(events)
    ensures ValidEvents(events[1..])
  {
    var rest := events[1..];
    forall k | 0 <= k < |rest| && rest[k].Toggle? ensures rest[k].box < |THEATRES| {
      assert rest[k] == events[k + 1];
    }
  }

  /** Every flag set to `b`. */
  function Uniform(b: bool): (r: seq<bool>)
    ensures |r| == |THEATRES|
    ensures forall i :: 0 <= i < |r| ==> r[i] == b
  {
    seq(|THEATRES|, _ => b)
  }

  /** The selection window from the given flags: clicks change the flags, Select All/None set
      all of them, "Create Files" with nothing ticked only warns, with something ticked it
      confirms the ticked theatres in `THEATRES` order, and closing the window ends it. */
  function Dialog(flags: seq<bool>, events: seq<Event>): DialogEnd
    requires |flags| == |THEATRES| && ValidEvents(events)
    decreases |events|
  {
    if events == [] then Open
    else
      var rest := events[1..];
      RestValid(events);
      match events[0]
      case Toggle(i) => Dialog(flags[i := !flags[i]], rest)
      case SelectAll => Dialog(Uniform(true), rest)
      case SelectNone => Dialog(Uniform(false), rest)
      case CreateFiles =>
        var selected := Filter(THEATRES, flags);
        if selected == [] then Dialog(flags, rest) else Confirmed(selected)
      case CloseWindow => Closed
  }

  /** The whole run: `load_files`, `get_current_theatre` on the first template in dict order,
      then the selection window, then `save_modified_files`. */
  function Program(paths: seq<string>, read: string -> Option<string>, events: seq<Event>, dir: Option<string>): Outcome
    requires ValidEvents(events)
  {
    var loaded := Load(paths, read);
    if loaded.LoadFailed? then Aborted(loaded.error)
    else
      LoadMeaning(paths, read);
      match Extract(loaded.files[0].content)
      case None => NoTheatreFound
      case Some(current) =>
        match Dialog(Uniform(false), events)
        case Closed => Cancelled
        case Open => StillOpen
        case Confirmed(selected) => Saved(selected, Save(loaded.files, selected, current, dir))
  }

  /** The selection window's main loop, on a `Checklist`. */
  method RunDialog(events: seq<Event>) returns (ending: DialogEnd)
    requires ValidEvents(events)
    ensures ending == Dialog(Uniform(false), events)
  {
    var checklist := new Checklist();
    assert checklist.flags[..] == Uniform(false);
    ending := Open;
    var k := 0;
    while k < |events| && ending.Open?
      invariant 0 <= k <= |events|
      invariant checklist.Valid() && fresh(checklist.flags)
      invariant ending.Open? ==> Dialog(Uniform(false), events) == Dialog(checklist.flags[..], events[k..])
      invariant !ending.Open? ==> Dialog(Uniform(false), events) == ending
      decreases |events| - k
    {
      assert events[k..][1..] == events[k + 1..];
      match events[k] {
        case Toggle(i) =>
          checklist.Toggle(i);
        case SelectAll =>
          checklist.SelectAll();
          assert checklist.flags[..] == Uniform(true);
        case SelectNone =>
          checklist.SelectNone();
          assert checklist.flags[..] == Uniform(false);
        case CreateFiles =>
          var selected := checklist.Selected();
          if selected != [] {
            ending := Confirmed(selected);
          }
        case CloseWindow =>
          ending := Closed;
      }
      k := k + 1;
    }
  }

  /** `main`, with the dialogs' answers and the window's events as inputs. */
  method RunTool(paths: seq<string>, read: string -> Option<string>, events: seq<Event>, dir: Option<string>)
    returns (outcome: Outcome)
    requires ValidEvents(events)
    ensures outcome == Program(paths, read, events, dir)
  {
    var loaded := LoadFiles(paths, read);
    if loaded.LoadFailed? {
      return Aborted(loaded.error);
    }
    LoadMeaning(paths, read);
    var found := Extract(loaded.files[0].content);
    if found.None? {
      return NoTheatreFound;
    }
    var ending := RunDialog(events);
    match ending {
      case Closed =>
        outcome := Cancelled;
      case Open =>
        outcome := StillOpen;
      case Confirmed(selected) =>
        var result := SaveModifiedFiles(loaded.files, selected, found.value, dir);
        outcome := Saved(selected, result);
    }
  }

  /** A confirmed selection is never empty, lists only theatres of `THEATRES`, and keeps
      their order. */
  lemma {:induction false} ConfirmedSelection(flags: seq<bool>, events: seq<Event>)
    requires |flags| == |THEATRES| && ValidEvents(events)
    ensures Dialog(flags, events).Confirmed? ==>
      var selected := Dialog(flags, events).selected;
      selected != [] && Subsequence(selected, THEATRES) && forall t :: t in selected ==> t in THEATRES
    decreases |events|
  {
    if events != [] {
      var rest := events[1..];
      RestValid(events);
      match events[0] {
        case Toggle(i) => ConfirmedSelection(flags[i := !flags[i]], rest);
        case SelectAll => ConfirmedSelection(Uniform(true), rest);
        case SelectNone => ConfirmedSelection(Uniform(false), rest);
        case CreateFiles =>
          ConfirmedSelection(flags, rest);
          FilterIsSubsequence(THEATRES, flags);
          FilterMembers(THEATRES, flags);
        case CloseWindow =>
      }
    }
  }

  /** With nothing ticked and no click that could tick a box, "Create Files" only warns: the
      window never confirms, and it ends only when it is closed. */
  lemma {:induction false} NothingTickedNeverConfirms(flags: seq<bool>, events: seq<Event>)
    requires |flags| == |THEATRES| && ValidEvents(events)
    requires forall i :: 0 <= i < |flags| ==> !flags[i]
    requires forall k :: 0 <= k < |events| ==> !events[k].Toggle? && !events[k].SelectAll?
    ensures Dialog(flags, events) == if CloseWindow in events then Closed else Open
    decreases |events|
  {
    if events != [] {
      var rest := events[1..];
      RestValid(events);
      assert forall k :: 0 <= k < |rest| ==> rest[k] == events[k + 1];
      assert CloseWindow in events <==> events[0] == CloseWindow || CloseWindow in rest by {
        assert events == [events[0]] + rest;
      }
      match events[0] {
        case SelectNone => NothingTickedNeverConfirms(Uniform(false), rest);
        case CreateFiles =>
          FilterEmpty(THEATRES, flags);
          NothingTickedNeverConfirms(flags, rest);
        case CloseWindow =>
      }
    }
  }

  /** "Select All" followed by "Create Files" confirms every theatre, in list order. */
  lemma {:induction false} SelectAllConfirmsEveryTheatre(flags: seq<bool>, rest: seq<Event>)
    requires |flags| == |THEATRES| && ValidEvents([SelectAll, CreateFiles] + rest)
    ensures Dialog(flags, [SelectAll, CreateFiles] + rest) == Confirmed(THEATRES)
  {
    var events := [SelectAll, CreateFiles] + rest;
    assert events[1..] == [CreateFiles] + rest;
    FilterAll(THEATRES, Uniform(true));
    TheatresArePlain();
  }

  /** Files are generated only when every chosen template could be read and the first one
      (in the order chosen) names a theatre; when it does not, the run stops there. */
  lemma {:induction false} SavedOnlyWithTheatre(paths: seq<string>, read: string -> Option<string>, events: seq<Event>, dir: Option<string>)
    requires ValidEvents(events)
    ensures Program(paths, read, events, dir).Saved? ==>
      paths != [] && (forall p :: p in paths ==> read(p).Some?) && Extract(read(paths[0]).value).Some?
    ensures paths != [] && (forall p :: p in paths ==> read(p).Some?) && Extract(read(paths[0]).value).None? ==>
      Program(paths, read, events, dir) == NoTheatreFound
  {
    LoadMeaning(paths, read);
    var loaded := Load(paths, read);
    if loaded.Loaded? {
      assert loaded.files[0] in loaded.files;
    }
  }

  /** The copies of the first template in a saved run: the `j`-th write is the `j`-th selected
      theatre's copy, named `{theatre}-{basename}` inside the chosen directory, listed under
      that name, and the theatre read back from it is the selected one. */
  lemma {:induction false} FirstTemplateCopies(paths: seq<string>, read: string -> Option<string>, events: seq<Event>, dir: Option<string>, j: nat)
    requires ValidEvents(events)
    requires Program(paths, read, events, dir).Saved? && dir.Some? && dir.value != []
    requires j < |Program(paths, read, events, dir).selected|
    ensures var o := Program(paths, read, events, dir);
      var theatre := o.selected[j];
      var name := OutputName(theatre, Basename(paths[0]));
      o.result.Created? &&
      |o.result.written| == |Load(paths, read).files| * |o.selected| &&
      j < |o.result.written| && j < |o.result.names| &&
      o.result.written[j].path == Join(dir.value, name) &&
      o.result.names[j] == name &&
      Extract(o.result.written[j].content) == Some(theatre)
  {
    LoadMeaning(paths, read);
    var files := Load(paths, read).files;
    var current := Extract(files[0].content).value;
    var selected := Dialog(Uniform(false), events).selected;
    assert Program(paths, read, events, dir) == Saved(selected, Save(files, selected, current, dir));
    ConfirmedSelection(Uniform(false), events);
    TheatresArePlain();
    assert selected[j] in THEATRES;
    CopiesOfFirstTemplate(dir.value, files, selected, current, j);
  }
}
