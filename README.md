# Template duplicator: a verified model

The duplicator takes DCS mission templates (`.stm` files) and writes one copy of each for every
theatre the user ticks. In each copy, the `["theatre"] = "<current>"` assignment is rewritten to
name the chosen theatre. It works in five steps:

1. It loads the chosen files into a dict from path to text.
2. It reads the current theatre out of the first loaded file with
   `re.search(r'\["theatre"\] = \"(.*?)\"', ...)`.
3. It shows a checklist of the thirteen theatres, with Select All, Select None and Create Files
   buttons.
4. After asking for an output directory, it writes `{theatre}-{basename}` for every template and
   every ticked theatre.
5. It lists the names it created.

The Dafny project models each of these steps.

- `theatre_field.dfy` (`TheatreField`) covers the fixed regular expression.
  - `IsValueAt(s, i, v)` says that an assignment holding `v` starts at index `i`.
  - `Extract` is the leftmost scan. It is proved to return the value of the first assignment.
    The value is closed by a quote on the same line, and the result holds neither a quote nor a
    line break.
- `replace.dfy` (`Replace`) models `str.replace`. It replaces every occurrence left to right,
  without overlaps.
- `transform.dfy` (`Transform`) covers the rewrite of one assignment value to another.
  - No stale assignment remains after the rewrite.
  - Extracting from a rewritten template gives the new theatre.
- `theatres.dfy` (`Theatres`) holds the constant `THEATRES`.
- `paths.dfy` (`Paths`) models POSIX `os.path.basename` and `os.path.join`.
- `file_set.dfy` (`FileSet`) models `load_files`.
  - A loop fills an insertion-ordered dict, represented as a sequence of entries.
  - It stops on no selection or on the first unreadable file.
- `generation.dfy` (`Generation`) models `save_modified_files`.
  - Nested loops build the list of writes and the `created` list.
  - The writes are proved to be file-major, then theatre-minor.
  - There is exactly one write per template and selected theatre, each with the name `{theatre}-{basename}`.
- `selection.dfy` (`Selection`) is the checkbox state.
  - The class `Checklist` holds an `array<bool>` with one flag per theatre.
  - All flags start false.
  - Select All, Select None and Toggle change the flags.
  - `Selected` reads back the ticked theatres in `THEATRES` order.
- `session.dfy` (`Session`) covers the whole run as a function `Program` and as a method
  `RunTool`. The window is driven by a sequence of events.
  - Confirming with nothing ticked only warns, and the window stays open.
  - Closing the window ends the run.
  - A confirmed selection starts generation.

The dialogs and the file system are inputs:

- the chosen paths;
- a function `read` that returns a file's text, or nothing when reading raises;
- the window's events;
- the directory answer. `None` and the empty text that `askdirectory` returns on cancel both mean the dialog was dismissed, since the code tests `not save_dir`.

The `created` list is the sequence of base names of the writes. The directory's final state is
the map `Generation.Directory`, in which a later write to the same path replaces an earlier one.
Two templates with the same base name in different folders therefore produce colliding copies.
The model follows the code here: it makes one write per template and selected theatre, which can leave
fewer distinct files than writes. It does not promise that many distinct output files.

## Model

| member | source | states |
|---|---|---|
| TheatreField.CloseQuote | TemplateDuplicator.v6.py:44 | The lazy group `(.*?)` ends at the first quote after the prefix, and the captured text holds no quote and no line break. If it returns nothing, every later quote comes after a line break, which `.` cannot cross. |
| TheatreField.SearchFrom | TemplateDuplicator.v6.py:44 | The scan from index `i` returns the value of an assignment that starts at or after `i`, with no assignment between `i` and it. If it returns nothing, no assignment starts at or after `i`. |
| TheatreField.ValueUnique | TemplateDuplicator.v6.py:44 | At a given index, the captured value is determined: two values captured at the same index are equal. |
| TheatreField.Extract | TemplateDuplicator.v6.py:42-48 | `get_current_theatre` returns a value without quote or line break, captured at an index before which no assignment starts. It fails exactly when the text holds no assignment at all. |
| TheatreField.ExtractIsFirstMatch | TemplateDuplicator.v6.py:44-48 | Extraction returns `v` if and only if the first assignment in the text captures `v`. |
| Replace.ReplaceAll | TemplateDuplicator.v6.py:64 | `str.replace` for a non-empty pattern: a left-to-right scan that replaces each occurrence and resumes after it. Its meaning is stated by `ReplaceFirst`, `ReplaceAbsent`, `ReplaceSame`, `PrefixKept` and `PrefixCopied`. |
| Replace.ReplaceAbsent | TemplateDuplicator.v6.py:64 | Text with no occurrence of the old assignment comes back unchanged. |
| Replace.ReplaceSame | TemplateDuplicator.v6.py:64 | Replacing a pattern by itself is the identity. |
| Replace.ReplaceFirst | TemplateDuplicator.v6.py:64 | With the first occurrence at `i`, the result is the text before `i`, then the replacement, then the replaced rest after that occurrence: everything before the first occurrence is kept. |
| Replace.PrefixKept | TemplateDuplicator.v6.py:64 | The output copies the input up to the first replacement. So a prefix of the output is either a prefix of the input, or it agrees with the input up to an occurrence and spells the replacement from there. |
| Replace.PrefixCopied | TemplateDuplicator.v6.py:64 | With no occurrence starting before `k`, the output's first `k` characters are the input's. |
| Replace.Count | TemplateDuplicator.v6.py:64 | The number of positions where a pattern occurs. `CountZero` states that it is zero exactly when the pattern occurs nowhere. |
| Replace.CountZero | TemplateDuplicator.v6.py:64 | The count is zero if and only if the pattern does not occur. |
| Transform.Assignment | TemplateDuplicator.v6.py:64 | The text `["theatre"] = "<value>"` that both f-strings of the `replace` call build. `InnerBracketQuote`, `BracketNotQuote` and `DifferentAssignments` state its shape. |
| Transform.Rewrite | TemplateDuplicator.v6.py:64 | `content.replace` of the current theatre's assignment by the target's. Its meaning is stated by `NoStaleAssignment`, `RewriteCount` and `ExtractAfterRewrite`. |
| Transform.NoStaleAssignment | TemplateDuplicator.v6.py:64 | After `content.replace` with a target different from the current value, the old assignment occurs nowhere: every occurrence was replaced and none was recreated. This holds for every quote-free current value, including one that holds or ends in `[`, and for every quote-free target that does not end in `[`. |
| Transform.BracketNotQuote | TemplateDuplicator.v6.py:64 | Inside the assignment of a quote-free value that does not end in `[`, a `[` after the first character is never followed by a quote. |
| Transform.RewriteCount | TemplateDuplicator.v6.py:64 | For differing values without `"` or `[`, the rewritten text holds as many new assignments as the original held new and old ones together: each replacement turns one old assignment into one new one. |
| Transform.NewHeadKept | TemplateDuplicator.v6.py:64 | Where the scan copies a character, the output starts with a new assignment if and only if the input does. |
| Transform.MergedAssignmentsUndercount | TemplateDuplicator.v6.py:64 | For current `a[` and target `Y`, a concrete text whose rewrite holds fewer new assignments than its new and old ones together. |
| Transform.HeadKept | TemplateDuplicator.v6.py:64 | Where the scan copies a character, the output starts with the old assignment only if the input did, even when the current value ends in `[`. |
| Transform.InnerBracketQuote | TemplateDuplicator.v6.py:64 | Past its first character, an assignment of a quote-free value holds `["` only as its last two characters. |
| Transform.BracketTargetRecreates | TemplateDuplicator.v6.py:64 | A target ending in `[` can recreate the old assignment: the concrete case from "## Left out". |
| Transform.ExtractAfterRewrite | TemplateDuplicator.v6.py:64 | Rewriting the assignment extracted from a text to a valid target gives a text from which extraction returns the target. |
| Theatres.TheatresArePlain | TemplateDuplicator.v6.py:18-21 | The constant `Theatres.THEATRES`, the list of lines 18-21, has thirteen distinct names, each non-empty and free of quotes, line breaks, `[` and `/`. |
| Paths.Basename | TemplateDuplicator.v6.py:62 | POSIX `os.path.basename`, also applied at line 68. `BasenameMeaning` states its meaning. |
| Paths.Join | TemplateDuplicator.v6.py:65 | POSIX `os.path.join` of two parts. `BasenameOfJoin` states what the copies' names need of it. |
| Paths.BasenameMeaning | TemplateDuplicator.v6.py:62 | `os.path.basename` gives the longest `/`-free suffix: a suffix with no `/`, which is either the whole path or preceded by a `/`. |
| Paths.BasenameOfJoin | TemplateDuplicator.v6.py:65-68 | The base name of `os.path.join(save_dir, name)` is `name` when `name` has no `/`. |
| FileSet.Put | TemplateDuplicator.v6.py:35 | `content_map[path] = ...` on a dict kept as its items in insertion order. `PutMeaning` and `PutDistinct` state its meaning. |
| FileSet.LoadFrom | TemplateDuplicator.v6.py:31-38 | The read loop from the `i`-th chosen path on. `LoadFromSucceeds`, `LoadFromFails` and `LoadFromLoaded` state its meaning. |
| FileSet.Load | TemplateDuplicator.v6.py:24-40 | `load_files` with the chosen paths and a read function as inputs. `LoadMeaning` states its meaning, and `LoadFiles` computes it with the loop. |
| FileSet.PutMeaning | TemplateDuplicator.v6.py:35 | `content_map[path] = ...` appends a new key at the end and keeps an existing key in its place with the new text. Every other item is untouched. |
| FileSet.PutDistinct | TemplateDuplicator.v6.py:35 | Assignment keeps the dict's keys distinct. |
| FileSet.LoadStep | TemplateDuplicator.v6.py:32-35 | One successful read extends the dict to cover one more chosen path, and keeps its invariant. |
| FileSet.LoadFromSucceeds | TemplateDuplicator.v6.py:32-38 | The loop finishes if and only if every remaining path can be read. |
| FileSet.LoadFromFails | TemplateDuplicator.v6.py:36-38 | When the loop stops, it reports the first path that cannot be read. |
| FileSet.LoadFromLoaded | TemplateDuplicator.v6.py:31-40 | A finished loop holds exactly the chosen paths as distinct keys, each with its file's text, and the first chosen path first. |
| FileSet.LoadFiles | TemplateDuplicator.v6.py:24-40 | The loop computes `Load`. |
| FileSet.LoadMeaning | TemplateDuplicator.v6.py:24-40 | No chosen file is the "No files selected" error, and it happens exactly when the list is empty. Loading succeeds exactly when every chosen file can be read, and then gives a non-empty dict with the first chosen path as its first key, each chosen path once, holding its text. When no path is chosen twice, the keys are the chosen paths in the order chosen. Otherwise the first unreadable path is reported. |
| Generation.OutputName | TemplateDuplicator.v6.py:65 | The copy's file name `{theatre}-{base}`. `EmitName` states that it is the copy's base name. |
| Generation.Emit | TemplateDuplicator.v6.py:63-65 | One copy: the rewritten text at `join(save_dir, "{theatre}-{base}")`. `EmitName` and `CopiesOfFirstTemplate` state its meaning. |
| Generation.FileWrites | TemplateDuplicator.v6.py:63-67 | The copies of one template, in selection order. `FileWritesAt` states its meaning. |
| Generation.Plan | TemplateDuplicator.v6.py:60-67 | All copies, template by template in dict order. `PlanLength` and `PlanAt` state its meaning. |
| Generation.Names | TemplateDuplicator.v6.py:68 | The `created` list for a sequence of writes. `NamesAt` states its meaning. |
| Generation.Directory | TemplateDuplicator.v6.py:66-67 | The output directory after the writes. `LastWriteWins` states its meaning. |
| Generation.WriteCopies | TemplateDuplicator.v6.py:63-68 | The inner loop appends one copy per selected theatre, in selection order, and appends each copy's base name to `created`. |
| Generation.Save | TemplateDuplicator.v6.py:56-68 | Nothing is written exactly when the directory answer is missing or empty. Otherwise there are as many writes as templates times selected theatres, and `created` lists the base name of each write, in order. |
| Generation.SaveModifiedFiles | TemplateDuplicator.v6.py:50-68 | The loops over templates and theatres produce exactly `Save`'s outcome: nothing on a missing or empty directory answer, otherwise the plan's writes in dict order with their base names as `created`. |
| Generation.FileWritesAt | TemplateDuplicator.v6.py:63-68 | One template yields one copy per selected theatre, the `j`-th for the `j`-th theatre. |
| Generation.PlanLength | TemplateDuplicator.v6.py:60-68 | The number of writes is the number of templates times the number of selected theatres. |
| Generation.PlanAt | TemplateDuplicator.v6.py:60-68 | With `n` selected theatres, the write at `i * n + j` is template `i` rewritten for theatre `j`: file-major, theatre-minor order. |
| Generation.NamesAt | TemplateDuplicator.v6.py:68 | `created` has one entry per write, the base name of that write's path. |
| Generation.CreatedName | TemplateDuplicator.v6.py:62-68 | With `n` selected theatres, the copy of template `i` for theatre `j` is the write at `i * n + j`, and its base name is `{theatre}-{basename}`. By `NamesAt`, that is the `created` entry at the same index. |
| Generation.EmitName | TemplateDuplicator.v6.py:65-68 | A copy's base name is `{theatre}-{base}` for a theatre without `/`. |
| Generation.LastWriteWins | TemplateDuplicator.v6.py:66-67 | After the writes, a written path holds the content of the last write to it. |
| Generation.CopiesOfFirstTemplate | TemplateDuplicator.v6.py:61-68 | The first template's `j`-th copy is written at `join(dir, "{theatre}-{base}")` and listed under that name. Extracting from it gives the `j`-th theatre. |
| Selection.Filter | TemplateDuplicator.v6.py:77 | The comprehension `[t for t, v in zip(THEATRES, var_list) if v.get()]`. `FilterIsSubsequence`, `FilterMembers`, `FilterEmpty` and `FilterAll` state its meaning. |
| Selection.FilterIsSubsequence | TemplateDuplicator.v6.py:77 | The comprehension keeps the list's order: the chosen theatres are a subsequence of `THEATRES`. |
| Selection.FilterMembers | TemplateDuplicator.v6.py:77 | A theatre is chosen if and only if its flag is set. |
| Selection.FilterEmpty | TemplateDuplicator.v6.py:77-78 | Nothing is chosen if and only if no flag is set. |
| Selection.FilterAll | TemplateDuplicator.v6.py:77 | With every flag set, the whole list is chosen, in order. |
| Selection.Checklist.constructor | TemplateDuplicator.v6.py:106-110 | There is one flag per theatre, and all start unticked. |
| Selection.Checklist.SelectAll | TemplateDuplicator.v6.py:121 | Every flag is set, and there is still one flag per theatre. |
| Selection.Checklist.SelectNone | TemplateDuplicator.v6.py:122 | Every flag is cleared, and there is still one flag per theatre. |
| Selection.Checklist.Toggle | TemplateDuplicator.v6.py:109 | A click flips one flag and no other. |
| Selection.Checklist.Selected | TemplateDuplicator.v6.py:77 | The loop returns `THEATRES` filtered by the flags. |
| Session.Dialog | TemplateDuplicator.v6.py:76-123 | The selection window as a function of its events. `ConfirmedSelection`, `NothingTickedNeverConfirms` and `SelectAllConfirmsEveryTheatre` state its meaning, and `RunDialog` computes it. |
| Session.Program | TemplateDuplicator.v6.py:128-131 | The whole run. `SavedOnlyWithTheatre` and `FirstTemplateCopies` state its meaning, and `RunTool` computes it. |
| Session.RunDialog | TemplateDuplicator.v6.py:76-87 | The window's event loop on a `Checklist` ends as the `Dialog` function says. |
| Session.RunTool | TemplateDuplicator.v6.py:128-131 | `main` ends as `Program` says: load, extract from the first template, select, save. |
| Session.ConfirmedSelection | TemplateDuplicator.v6.py:76-81 | A confirmed selection is non-empty and is a subsequence of `THEATRES`. |
| Session.NothingTickedNeverConfirms | TemplateDuplicator.v6.py:78-80 | With nothing ticked and no click that could tick a box, Create Files only warns. The window never confirms, and it ends only when closed. |
| Session.SelectAllConfirmsEveryTheatre | TemplateDuplicator.v6.py:121-123 | Select All followed by Create Files confirms all thirteen theatres in list order. |
| Session.SavedOnlyWithTheatre | TemplateDuplicator.v6.py:128-131 | Files are generated only when every chosen file is readable and the first names a theatre. When the first names none, the run stops there. |
| Session.FirstTemplateCopies | TemplateDuplicator.v6.py:60-68 | In a saved run with a non-empty directory answer, the number of writes is the number of loaded templates times the number of selected theatres. The first template's `j`-th copy is named `{theatre}-{basename}` in the chosen directory and listed so. Extracting from it gives the selected theatre. |

## Left out

- The tkinter window: construction, scrolling canvas, layout and `mainloop` (TemplateDuplicator.v6.py:89-125). Its behaviour is the event sequence consumed by `Session.Dialog`.
- Message boxes and `exit()`: each is modelled only as the outcome it leads to (`Aborted`, `NoTheatreFound`, `Cancelled`, `Saved(_, NoDirectory)`). The text of the messages, including the success message that joins `created`, is not modelled.
- The open-file dialog's extension filter and the save dialog's `initialdir`. The dialogs' answers are inputs.
- Reading files, including UTF-8 decoding with `errors="ignore"` and text mode's newline translation: `read` is an input function that returns the text after decoding, with `\r\n` and `\r` already turned into `\n`.
- Writing files: a write is an `Output` value, and the directory is `Generation.Directory`. An `Output`'s content is the text before text mode turns each `\n` into the platform's line ending, so a copy need not match its template byte for byte outside the replaced assignment.
- Generation.SaveModifiedFiles: every write succeeds in the model. In the code, `save_modified_files` runs inside `on_create`, the Create Files button's command (TemplateDuplicator.v6.py:76-82, 123). tkinter reports any exception from a button command other than `SystemExit` and keeps the main loop running. So a write that raises at line 66:
  - ends that pass through the loops, and the copies already written stay on disk;
  - skips the success message at line 70 and `root.destroy()` at line 82;
  - leaves the selection window open with its flags, so pressing Create Files again runs generation again.

  In a build without a console, the report goes nowhere. `Session.Dialog` instead treats a confirmed selection as final.
- Windows path rules: `Paths.Basename` and `Paths.Join` follow POSIX, so backslash separators and drive letters are not modelled.
- Replace.ReplaceAll: requires a non-empty pattern. Python's behaviour for an empty pattern is not modelled, because the only call builds `["theatre"] = "<value>"`, which is never empty.
- Transform.NoStaleAssignment: requires that neither value contains `"` and that the target does not end in `[`. A target ending in `[` can form the old assignment together with the text after it. With current `A` and target `x[`, the text `["theatre"] = "A"theatre"] = "A"` becomes `["theatre"] = "x["theatre"] = "A"`, as Transform.BracketTargetRecreates shows. Every entry of `THEATRES` meets the condition on the target.
- Transform.RewriteCount: requires that neither value contains `"` or `[`. With a current value ending in `[` the law fails. The text `["theatre"] = "a["theatre"] = "Y"` holds the old assignment for `a[` and a new one for `Y`, but its rewrite holds only one new assignment, as Transform.MergedAssignmentsUndercount shows. Whether the law holds for values holding `[` elsewhere is not proved.
- Transform.ExtractAfterRewrite: requires the target to hold no quote and no line break. Every entry of `THEATRES` meets this.
- Generation.CopiesOfFirstTemplate: the round trip is stated for the first template, the one `current` was read from. Templates that hold no `["theatre"] = "<current>"` are copied unchanged, as `Replace.ReplaceAbsent` shows. A template whose own first assignment holds `current` also reads back as the target, as `Transform.ExtractAfterRewrite` shows.
- Session.RunDialog: requires every click to hit one of the thirteen boxes, the only ones the window has.
