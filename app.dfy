/**
 * The bookkeeping of the editor's entry class: the remembered-path
 * preference, the window title, saving and loading a file line by line,
 * the save chooser and the close-request handler.
 *
 * Dialogs, the file system and the preference store are replaced by
 * parameters and fields; everything the user sees or the program does to
 * the outside is recorded, in order, in `trace`.
 */
module App {
  import opened Wrappers
  import opened Text
  import opened Paths

  /** What the program does that someone outside could observe, in order. */
  datatype Action =
    | PathStored(path: string)          // the "filePath" preference is written
    | PathRemoved                       // the "filePath" preference is removed
    | Wrote(file: string, chunk: string) // one `write` call on the file's writer
    | ErrorShown                        // the error dialog
    | ConfirmationShown                 // "Do you want to save changes ?"
    | CloseConsumed                     // the close event is consumed
    | SaveChooserShown(initialDirectory: string)
    | WindowClosed
    | Exited

  /** The window title for a remembered path, or for none. */
  function TitleFor(file: Option<string>): (t: string) {
    match file
    case None => "File"
    case Some(path) => "File name - " + FileName(path)
  }

  /**
   * The title is "File" exactly when no path is remembered, and otherwise
   * ends in the remembered file's name.
   */
  lemma TitleNamesFile(file: Option<string>)
    ensures TitleFor(file) == "File" <==> file.None?
    ensures file.Some? ==> EndsWith(TitleFor(file), FileName(file.value))
  {
    if file.Some? {
      var t := TitleFor(file);
      assert |t| > 4;
    }
  }

  /** The write calls of the save loop: each line, then the separator. */
  function WriteEvents(file: string, ls: seq<string>, sep: string): (r: seq<Action>)
    ensures |r| == 2 * |ls|
    ensures forall i :: 0 <= i < |r| ==> r[i].Wrote? && r[i].file == file
  {
    if ls == [] then []
    else [Wrote(file, ls[0]), Wrote(file, sep)] + WriteEvents(file, ls[1..], sep)
  }

  lemma {:induction false} WriteEventsAppend(file: string, ls: seq<string>, line: string, sep: string)
    ensures WriteEvents(file, ls + [line], sep) == WriteEvents(file, ls, sep) + [Wrote(file, line), Wrote(file, sep)]
  {
    if ls == [] {
      assert ls + [line] == [line];
    } else {
      assert (ls + [line])[1..] == ls[1..] + [line];
      WriteEventsAppend(file, ls[1..], line, sep);
    }
  }

  /** Everything the write calls put into the file, in order. */
  function Written(events: seq<Action>): (w: string) {
    if events == [] then []
    else (if events[0].Wrote? then events[0].chunk else []) + Written(events[1..])
  }

  /** The chunks the save loop writes add up to the joined lines. */
  lemma {:induction false} WrittenIsJoin(file: string, ls: seq<string>, sep: string)
    ensures Written(WriteEvents(file, ls, sep)) == Join(ls, sep)
  {
    if ls != [] {
      var rest := WriteEvents(file, ls[1..], sep);
      var evs := WriteEvents(file, ls, sep);
      assert evs[1..][1..] == rest;
      WrittenIsJoin(file, ls[1..], sep);
    }
  }

  /**
   * What one `saveToFile` call does, seen from outside: when the file can be
   * opened the path is recorded first and then every line and separator is
   * written; otherwise only the error dialog appears.
   */
  function SaveTrace(file: string, ls: seq<string>, canOpen: bool, sep: string): (r: seq<Action>)
    ensures |r| == if canOpen then 1 + 2 * |ls| else 1
    ensures r[0] == if canOpen then PathStored(file) else ErrorShown
  {
    if canOpen then [PathStored(file)] + WriteEvents(file, ls, sep) else [ErrorShown]
  }

  /** `SaveTrace` of an opened file as the save's steps append it to a trace. */
  lemma SaveTraceOpened(before: seq<Action>, file: string, ls: seq<string>, sep: string)
    ensures before + [PathStored(file)] + WriteEvents(file, ls, sep) == before + SaveTrace(file, ls, true, sep)
  {
  }

  /**
   * A save that can open its file records the path before any write, then
   * makes only write calls on that file, and those write exactly the joined
   * lines; one that cannot open its file shows the error dialog and nothing
   * else.
   */
  lemma SaveTraceOrder(file: string, ls: seq<string>, canOpen: bool, sep: string)
    ensures var r := SaveTrace(file, ls, canOpen, sep);
      if canOpen then
        |r| >= 1 && r[0] == PathStored(file)
        && (forall i :: 1 <= i < |r| ==> r[i].Wrote? && r[i].file == file)
        && Written(r[1..]) == Join(ls, sep)
      else r == [ErrorShown]
  {
    if canOpen {
      var evs := WriteEvents(file, ls, sep);
      WrittenIsJoin(file, ls, sep);
      assert ([PathStored(file)] + evs)[1..] == evs;
    }
  }

  /**
   * Whether `readFromFile` ends in its catch blocks: the file is missing, or
   * the `readLine` call number `n + 1` throws (the last of those calls is
   * the one that would have answered "no more lines").
   */
  predicate ReadFails(content: Option<string>, failingCall: Option<nat>) {
    content.None? || (failingCall.Some? && failingCall.value <= |Lines(content.value)|)
  }

  /**
   * The string `readFromFile` returns.  On success it is every line
   * followed by the separator.  On a failure it is whatever the local
   * variable `line` held: "" when the file could not be opened or the first
   * read failed, and otherwise the last line read before the failure.
   */
  function ReadResult(content: Option<string>, failingCall: Option<nat>, sep: string): (r: string)
    ensures content.None? ==> r == []
    ensures ReadFails(content, failingCall) ==> IsLine(r)
    ensures !ReadFails(content, failingCall) ==> r == Join(Lines(content.value), sep)
  {
    match content
    case None => []
    case Some(text) =>
      var ls := Lines(text);
      if failingCall.Some? && failingCall.value <= |ls| then
        if failingCall.value == 0 then [] else ls[failingCall.value - 1]
      else Join(ls, sep)
  }

  /**
   * A successful read has the file's lines, each ended by the separator; a
   * failed one returns at most a single line, and nothing at all when the
   * file could not be opened.
   */
  lemma ReadResultMeaning(content: Option<string>, failingCall: Option<nat>, sep: string)
    requires IsLineSeparator(sep)
    ensures var r := ReadResult(content, failingCall, sep);
      (content.None? ==> r == [])
      && (!ReadFails(content, failingCall) ==>
            r == Join(Lines(content.value), sep) && Lines(r) == Lines(content.value) && (r == [] || EndsWith(r, sep)))
      && (ReadFails(content, failingCall) ==> IsLine(r))
  {
    if !ReadFails(content, failingCall) {
      LinesOfJoin(Lines(content.value), sep);
    }
  }

  /** A file that was saved reads back as exactly the text that was written. */
  lemma SavedFileReadsBack(content: string, sep: string)
    requires IsLineSeparator(sep)
    ensures ReadResult(Some(Join(Lines(content), sep)), None, sep) == Join(Lines(content), sep)
  {
    SaveLoadRoundTrip(content, sep);
  }

  /** Some call of `saveToFile` happened: the path was recorded or opening failed. */
  predicate SaveAttempted(r: seq<Action>) {
    exists i :: 0 <= i < |r| && (r[i].PathStored? || r[i].ErrorShown?)
  }

  /**
   * What `showSaveChooser` does, seen from outside: the chooser opens on
   * `dir`, and when it returns a path the text is saved under that path
   * with ".txt" added if missing.
   */
  function ChooserTrace(dir: string, chosen: Option<string>, ls: seq<string>, canOpen: bool, sep: string): (r: seq<Action>)
    ensures |r| >= 1 && r[0] == SaveChooserShown(dir)
    ensures chosen.None? ==> |r| == 1
  {
    [SaveChooserShown(dir)]
    + (if chosen.Some? then SaveTrace(WithTxtExtension(chosen.value), ls, canOpen, sep) else [])
  }

  /**
   * The chooser opens first and never again; it neither asks for
   * confirmation nor exits; it attempts a save exactly when a path was
   * chosen, and every path it records ends in ".txt".
   */
  lemma ChooserTraceShape(dir: string, chosen: Option<string>, ls: seq<string>, canOpen: bool, sep: string)
    ensures var r := ChooserTrace(dir, chosen, ls, canOpen, sep);
      |r| >= 1 && r[0] == SaveChooserShown(dir)
      && (forall i :: 1 <= i < |r| ==> r[i].PathStored? || r[i].Wrote? || r[i].ErrorShown?)
      && (SaveAttempted(r) <==> chosen.Some?)
      && (forall i :: 0 <= i < |r| && r[i].PathStored? ==> EndsWith(r[i].path, TxtExtension))
      && NeitherConfirmsNorExits(r)
  {
    var r := ChooserTrace(dir, chosen, ls, canOpen, sep);
    if chosen.Some? {
      var target := WithTxtExtension(chosen.value);
      var saving := SaveTrace(target, ls, canOpen, sep);
      SaveTraceOrder(target, ls, canOpen, sep);
      assert r == [SaveChooserShown(dir)] + saving;
      assert r[1] == saving[0];
    } else {
      assert r == [SaveChooserShown(dir)];
    }
  }

  /**
   * The close-request handler, seen from outside, given what the save
   * chooser does when it runs.
   */
  function CloseTrace(changed: bool, confirmed: bool, chooser: seq<Action>): (r: seq<Action>)
  {
    if !changed then [WindowClosed, Exited]
    else [ConfirmationShown] + (if confirmed then [CloseConsumed] + chooser else []) + [WindowClosed, Exited]
  }

  /** `ChooserTrace` as the chooser's steps append it to a trace. */
  lemma ChooserTraceSplit(before: seq<Action>, dir: string, chosen: Option<string>, ls: seq<string>, canOpen: bool, sep: string)
    ensures chosen.None? ==> before + [SaveChooserShown(dir)] == before + ChooserTrace(dir, chosen, ls, canOpen, sep)
    ensures chosen.Some? ==>
      (before + [SaveChooserShown(dir)] + SaveTrace(WithTxtExtension(chosen.value), ls, canOpen, sep)
      == before + ChooserTrace(dir, chosen, ls, canOpen, sep))
  {
  }

  /** The handler's trace when there are changes and the answer is OK. */
  lemma CloseTraceConfirmed(chooser: seq<Action>)
    ensures CloseTrace(true, true, chooser) == [ConfirmationShown, CloseConsumed] + chooser + [WindowClosed, Exited]
  {
  }

  /** `CloseTrace` as the handler's steps append it to a trace. */
  lemma CloseTraceSplit(before: seq<Action>, changed: bool, confirmed: bool, chooser: seq<Action>)
    ensures !changed ==> before + [WindowClosed, Exited] == before + CloseTrace(changed, confirmed, chooser)
    ensures changed && !confirmed ==>
      before + [ConfirmationShown] + [WindowClosed, Exited] == before + CloseTrace(changed, confirmed, chooser)
    ensures changed && confirmed ==>
      (before + [ConfirmationShown] + [CloseConsumed] + chooser + [WindowClosed, Exited]
      == before + CloseTrace(changed, confirmed, chooser))
  {
  }

  /**
   * A close trace that ends by closing the window and exiting, exits at no
   * earlier point, and shows the confirmation dialog first, and at all,
   * exactly when there are unsaved changes.
   */
  predicate ExitsAfterAsking(changed: bool, r: seq<Action>) {
    |r| >= 2 && r[|r| - 2..] == [WindowClosed, Exited]
    && (forall i :: 0 <= i < |r| - 1 ==> r[i] != Exited)
    && (changed <==> ConfirmationShown in r)
    && (changed ==> r[0] == ConfirmationShown)
  }

  /**
   * Whatever the state and the answers, closing ends by closing the window
   * and exiting, and exits at no earlier point; the confirmation dialog
   * comes first, and appears at all, exactly when there are unsaved changes.
   * This holds for every chooser that neither asks for confirmation nor
   * exits, which `ChooserTraceShape` shows of the save chooser.  The
   * chooser is taken to return; a chooser that throws is not modelled.
   */
  lemma CloseAlwaysExits(changed: bool, confirmed: bool, chooser: seq<Action>)
    requires NeitherConfirmsNorExits(chooser)
    ensures ExitsAfterAsking(changed, CloseTrace(changed, confirmed, chooser))
  {
    var r := CloseTrace(changed, confirmed, chooser);
    if !changed {
      assert r == [WindowClosed, Exited];
    } else if !confirmed {
      assert r == [ConfirmationShown, WindowClosed, Exited];
    } else {
      CloseTraceConfirmed(chooser);
      ConfirmedCloseExits(chooser);
    }
  }

  /** An action sequence with no confirmation dialog and no exit in it. */
  predicate NeitherConfirmsNorExits(r: seq<Action>) {
    forall i :: 0 <= i < |r| ==> r[i] != Exited && r[i] != ConfirmationShown
  }

  /** `CloseAlwaysExits` when there are changes and the answer is OK. */
  lemma ConfirmedCloseExits(chooser: seq<Action>)
    requires NeitherConfirmsNorExits(chooser)
    ensures var r := [ConfirmationShown, CloseConsumed] + chooser + [WindowClosed, Exited];
      r[|r| - 2..] == [WindowClosed, Exited]
      && (forall i :: 0 <= i < |r| - 1 ==> r[i] != Exited)
      && r[0] == ConfirmationShown
  {
    var r := [ConfirmationShown, CloseConsumed] + chooser + [WindowClosed, Exited];
    assert forall i :: 2 <= i < 2 + |chooser| ==> r[i] == chooser[i - 2];
  }

  /**
   * The close handler with the real save chooser: it ends by closing and
   * exiting, exits at no earlier point, and asks for confirmation first,
   * and at all, exactly when there are changes.
   */
  lemma CloseWithChooserAlwaysExits(changed: bool, confirmed: bool, dir: string, chosen: Option<string>,
                                    ls: seq<string>, canOpen: bool, sep: string)
    ensures ExitsAfterAsking(changed, CloseTrace(changed, confirmed, ChooserTrace(dir, chosen, ls, canOpen, sep)))
  {
    ChooserTraceShape(dir, chosen, ls, canOpen, sep);
    CloseAlwaysExits(changed, confirmed, ChooserTrace(dir, chosen, ls, canOpen, sep));
  }

  /**
   * The save chooser opens exactly when there are changes and the answer is
   * OK; a save is attempted exactly when, in addition, the chooser returns a
   * file; and every path it records ends in ".txt".
   */
  lemma CloseSavesOnlyWhenAsked(changed: bool, confirmed: bool, dir: string, chosen: Option<string>,
                                ls: seq<string>, canOpen: bool, sep: string)
    ensures var r := CloseTrace(changed, confirmed, ChooserTrace(dir, chosen, ls, canOpen, sep));
      (SaveChooserShown(dir) in r <==> changed && confirmed)
      && (SaveAttempted(r) <==> changed && confirmed && chosen.Some?)
      && (forall i :: 0 <= i < |r| && r[i].PathStored? ==> EndsWith(r[i].path, TxtExtension))
  {
    var chooser := ChooserTrace(dir, chosen, ls, canOpen, sep);
    ChooserTraceShape(dir, chosen, ls, canOpen, sep);
    CloseRunsChooser(changed, confirmed, dir, chooser);
  }

  /**
   * What happens between the confirmation and the exit is the chooser's
   * doing: the chooser that opens on `dir` runs exactly when there are
   * changes and the answer is OK, and every path recorded is one the
   * chooser recorded.
   */
  lemma CloseRunsChooser(changed: bool, confirmed: bool, dir: string, chooser: seq<Action>)
    requires |chooser| >= 1 && chooser[0] == SaveChooserShown(dir)
    requires forall i :: 1 <= i < |chooser| ==> !chooser[i].SaveChooserShown?
    ensures var r := CloseTrace(changed, confirmed, chooser);
      (SaveChooserShown(dir) in r <==> changed && confirmed)
      && (SaveAttempted(r) <==> changed && confirmed && SaveAttempted(chooser))
      && (forall i :: 0 <= i < |r| && r[i].PathStored? ==> r[i] in chooser)
  {
    var r := CloseTrace(changed, confirmed, chooser);
    if changed && confirmed {
      CloseTraceConfirmed(chooser);
      assert r[2] == chooser[0];
      assert forall i :: 2 <= i < 2 + |chooser| ==> r[i] == chooser[i - 2];
      if SaveAttempted(chooser) {
        var k :| 0 <= k < |chooser| && (chooser[k].PathStored? || chooser[k].ErrorShown?);
        assert r[k + 2] == chooser[k];
      }
    } else {
      assert forall i :: 0 <= i < |r| ==> r[i] in {ConfirmationShown, WindowClosed, Exited};
    }
  }

  /** The state of the editor's main class that its bookkeeping reads and writes. */
  class EditorApp {
    /** `System.lineSeparator()` of the host. */
    const lineSeparator: string
    /** The "filePath" entry of the user preferences. */
    var remembered: Option<string>
    var title: string
    var mainIsChanged: bool
    /** The files, by path. */
    var files: map<string, string>
    var trace: seq<Action>

    /** The title always names the remembered file. */
    ghost predicate Valid()
      reads this
    {
      IsLineSeparator(lineSeparator) && title == TitleFor(remembered)
    }

    /**
     * `start`: the title is set, and then the remembered path is reset, so
     * whatever a previous session stored is dropped.
     */
    constructor (sep: string, stored: Option<string>, disk: map<string, string>)
      requires IsLineSeparator(sep)
      ensures Valid()
      ensures remembered == None && title == "File" && files == disk
      ensures trace == [PathRemoved] && !mainIsChanged
      ensures lineSeparator == sep
    {
      lineSeparator := sep;
      remembered := stored;
      title := "Simple Text Editor";
      mainIsChanged := false;
      files := disk;
      trace := [];
      new;
      SetFilePath(None);
    }

    /** `getFilePath`: the remembered path, or none. */
    function GetFilePath(): (p: Option<string>)
      reads this
      ensures p == remembered
    {
      remembered
    }

    /** `setFilePath`: remember a path (or forget it) and retitle the window. */
    method SetFilePath(file: Option<string>)
      modifies this`remembered, this`title, this`trace
      ensures GetFilePath() == file
      ensures title == TitleFor(file)
      ensures trace == old(trace) + [if file.Some? then PathStored(file.value) else PathRemoved]
    {
      match file
      case Some(path) =>
        remembered := Some(path);
        trace := trace + [PathStored(path)];
        title := TitleFor(Some(path));
      case None =>
        remembered := None;
        trace := trace + [PathRemoved];
        title := TitleFor(None);
    }

    /** `getDirectory`: the folder of the remembered path, or "C:/". */
    method GetDirectory() returns (dir: string)
      ensures dir == Directory(GetFilePath())
    {
      match remembered
      case None =>
        return FallbackDirectory;
      case Some(abs) =>
        var arr := SplitBackslash(abs);
        var newPath := "";
        var i := 0;
        while i + 1 < |arr|
          invariant arr == [] ==> i == 0
          invariant arr != [] ==> 0 <= i <= |arr| - 1
          invariant newPath == Join(arr[..i], "/")
        {
          JoinPrefixStep(arr, i, "/");
          newPath := newPath + arr[i] + "/";
          i := i + 1;
        }
        dir := newPath;
    }

    /**
     * `saveToFile`: when the file cannot be opened only the error dialog
     * appears.  Otherwise the file is emptied, the path is recorded, and
     * each line of `content` is written followed by the separator.
     */
    method SaveToFile(content: string, file: string, canOpen: bool)
      requires Valid()
      modifies this`remembered, this`title, this`trace, this`files
      ensures Valid()
      ensures trace == old(trace) + SaveTrace(file, Lines(content), canOpen, lineSeparator)
      ensures canOpen ==>
        (remembered == Some(file) && files == old(files)[file := Join(Lines(content), lineSeparator)])
      ensures !canOpen ==> remembered == old(remembered) && title == old(title) && files == old(files)
    {
      if canOpen {
        // Opening the stream creates or empties the file.
        ghost var before := trace;
        files := files[file := []];
        SetFilePath(Some(file));
        var buffered := WriteLines(file, content);
        // `close` flushes what the buffered writer holds.
        files := files[file := buffered];
        SaveTraceOpened(before, file, Lines(content), lineSeparator);
      } else {
        trace := trace + [ErrorShown];
      }
    }

    /**
     * The loop of `saveToFile`: the scanner hands out the lines of `content`
     * and each is written, then the separator.  The result is what the
     * buffered writer holds when the loop ends.
     */
    method WriteLines(file: string, content: string) returns (buffered: string)
      modifies this`trace
      ensures buffered == Join(Lines(content), lineSeparator)
      ensures trace == old(trace) + WriteEvents(file, Lines(content), lineSeparator)
    {
      var rest := content;
      buffered := "";
      ghost var done: seq<string> := [];
      while rest != []
        invariant Lines(content) == done + Lines(rest)
        invariant buffered == Join(done, lineSeparator)
        invariant trace == old(trace) + WriteEvents(file, done, lineSeparator)
        decreases |rest|
      {
        var r := NextLine(rest);
        var line, next := r.0, r.1;
        NextLineAdvances(content, done, rest);
        buffered := buffered + line;
        trace := trace + [Wrote(file, line)];
        buffered := buffered + lineSeparator;
        trace := trace + [Wrote(file, lineSeparator)];
        JoinAppend(done, line, lineSeparator);
        WriteEventsAppend(file, done, line, lineSeparator);
        done := done + [line];
        rest := next;
      }
      assert done + [] == done;
    }

    /**
     * `readFromFile`: a missing file fails at once.  `failingCall` says which
     * `readLine` call throws, if any.  On success and on failure alike the
     * path is recorded last; a failure shows the error dialog first.
     */
    method ReadFromFile(file: string, failingCall: Option<nat>) returns (text: string)
      requires Valid()
      modifies this`remembered, this`title, this`trace
      ensures Valid()
      ensures var content := if file in files then Some(files[file]) else None;
        text == ReadResult(content, failingCall, lineSeparator)
        && trace == old(trace) + (if ReadFails(content, failingCall) then [ErrorShown] else []) + [PathStored(file)]
      ensures remembered == Some(file)
    {
      var line := "";
      if file !in files {
        trace := trace + [ErrorShown];
        SetFilePath(Some(file));
        return line;
      }
      var content := files[file];
      var last, builder, failed := ReadLines(content, failingCall);
      if failed {
        trace := trace + [ErrorShown];
        SetFilePath(Some(file));
        return last;
      }
      SetFilePath(Some(file));
      return builder;
    }

    /**
     * The loop of `readFromFile`: each line read is appended to the builder
     * with the separator, until the reader runs out or the call numbered
     * by `failingCall` throws.  `last` is the variable `line` at that
     * moment, `builder` what was appended so far.
     */
    method ReadLines(content: string, failingCall: Option<nat>) returns (last: string, builder: string, failed: bool)
      ensures failed <==> ReadFails(Some(content), failingCall)
      ensures failed ==> last == ReadResult(Some(content), failingCall, lineSeparator)
      ensures !failed ==> builder == ReadResult(Some(content), failingCall, lineSeparator)
    {
      last := "";
      builder := "";
      var rest := content;
      var calls: nat := 0;
      ghost var done: seq<string> := [];
      while rest != [] && !(failingCall.Some? && failingCall.value == calls)
        invariant Lines(content) == done + Lines(rest)
        invariant calls == |done|
        invariant builder == Join(done, lineSeparator)
        invariant last == if done == [] then [] else done[|done| - 1]
        invariant failingCall.Some? ==> calls <= failingCall.value
        decreases |rest|
      {
        var r := NextLine(rest);
        var next;
        last, next := r.0, r.1;
        NextLineAdvances(content, done, rest);
        JoinAppend(done, last, lineSeparator);
        builder := builder + last + lineSeparator;
        done := done + [last];
        rest := next;
        calls := calls + 1;
      }
      failed := failingCall.Some? && failingCall.value == calls;
      if failed {
        assert calls <= |Lines(content)|;
        assert calls > 0 ==> Lines(content)[calls - 1] == done[calls - 1];
      } else {
        assert rest == [];
        assert Lines(content) == done by {
          assert done + [] == done;
        }
      }
    }

    /**
     * `showSaveChooser`: the chooser opens on `getDirectory`; a chosen path
     * gets ".txt" if it lacks it and the editor's text is saved there.
     */
    method ShowSaveChooser(chosen: Option<string>, content: string, canOpen: bool)
      requires Valid()
      modifies this`remembered, this`title, this`trace, this`files
      ensures Valid()
      ensures trace == old(trace) + ChooserTrace(Directory(old(remembered)), chosen, Lines(content), canOpen, lineSeparator)
      ensures if chosen.Some? && canOpen
        then remembered == Some(WithTxtExtension(chosen.value))
          && files == old(files)[WithTxtExtension(chosen.value) := Join(Lines(content), lineSeparator)]
        else remembered == old(remembered) && title == old(title) && files == old(files)
    {
      ghost var before := trace;
      var dir := GetDirectory();
      trace := trace + [SaveChooserShown(dir)];
      match chosen
      case None =>
        ChooserTraceSplit(before, dir, chosen, Lines(content), canOpen, lineSeparator);
      case Some(path) =>
        var target := WithTxtExtension(path);
        SaveToFile(content, target, canOpen);
        ChooserTraceSplit(before, dir, chosen, Lines(content), canOpen, lineSeparator);
    }

    /**
     * The close-request handler: copy the controller's "changed" flag; when
     * set, ask, and on OK consume the event and run the save chooser; close
     * and exit in every case.
     */
    method OnCloseRequest(isChanged: bool, confirmed: bool, chosen: Option<string>, content: string, canOpen: bool)
      requires Valid()
      modifies this`mainIsChanged, this`remembered, this`title, this`trace, this`files
      ensures Valid()
      ensures mainIsChanged == isChanged
      ensures trace == old(trace)
        + CloseTrace(isChanged, confirmed, ChooserTrace(Directory(old(remembered)), chosen, Lines(content), canOpen, lineSeparator))
      ensures if isChanged && confirmed && chosen.Some? && canOpen
        then remembered == Some(WithTxtExtension(chosen.value))
          && files == old(files)[WithTxtExtension(chosen.value) := Join(Lines(content), lineSeparator)]
        else remembered == old(remembered) && title == old(title) && files == old(files)
    {
      ghost var before := trace;
      ghost var chooser := ChooserTrace(Directory(remembered), chosen, Lines(content), canOpen, lineSeparator);
      mainIsChanged := isChanged;
      if mainIsChanged {
        trace := trace + [ConfirmationShown];
        if confirmed {
          trace := trace + [CloseConsumed];
          ShowSaveChooser(chosen, content, canOpen);
        }
        trace := trace + [WindowClosed, Exited];
      } else {
        trace := trace + [WindowClosed, Exited];
      }
      CloseTraceSplit(before, isChanged, confirmed, chooser);
    }
  }
}
