# Simple Text Editor: the bookkeeping of `app/Main.java`

The editor's entry class does four things that are not UI. It remembers the
last file opened or saved. It derives the save chooser's starting folder
from that path. It writes and reads files line by line. It handles the
window's close request: it asks whether to save unsaved changes and,
whenever the save chooser returns, it exits.

This project models those parts and proves what they promise.

- `wrappers.dfy`: `Option`, which stands for a Java reference that may be null.
- `text.dfy` (module `Text`): the line splitter and joiner.
  - `Lines` models `Scanner.nextLine` and `BufferedReader.readLine`, which
    end a line at "\n", "\r" or "\r\n".
  - `Join` writes each line followed by the host's line separator.
  - The round trip `Lines(Join(ls, sep)) == ls` is proved.
- `paths.dfy` (module `Paths`): string work on paths.
  - `String.split("\\\\")` with Java's semantics: any trailing empty
    pieces are dropped, and a string with no backslash comes back whole.
  - `getDirectory`'s string, `File.getName()`, and the ".txt" check.
- `app.dfy` (module `App`): class `EditorApp`, which holds the state the code
  reads and writes.
  - The "filePath" preference, the window title, `mainIsChanged`, the
    files by path, and a trace of everything observable in order.
  - Methods model `start`, `setFilePath`, `getFilePath`, `getDirectory`,
    `saveToFile`, `readFromFile`, `showSaveChooser` and the close-request
    handler.
  - Each method is proved against a function of its inputs: `SaveTrace`,
    `ReadResult`, `ChooserTrace` or `CloseTrace`. Lemmas state what those
    functions mean.

Dialog answers are parameters:
- the confirmation's OK;
- the chooser's returned path, or none;
- whether a file can be opened;
- which `readLine` call throws, if any.

Files are a map from path to text. The preference store is a field.

Three facts come from the code and may surprise a reader.

- `getDirectory` splits only on backslashes. A remembered path written with
  forward slashes, such as `/a/b/c.txt`, therefore gives "" and not `/a/b/`.
  A reader might expect `/a/b/`. The model follows the code; see `Paths.DirectoryOf`, which yields "" for any path with no
  backslash.
- `start` calls `setFilePath(null)`. The remembered path is therefore cleared
  on every launch, and the constructor models that.
- When a `readLine` call throws, `readFromFile` returns its variable `line`.
  That variable holds the last line read, or "" if none was read. It does
  not return the text built so far.

## Model

| member | source | states |
|---|---|---|
| Text.LineEnd | app/Main.java:176 | the first terminator's index: all before it is one line, and it is a terminator or the end |
| Text.NextLine | app/Main.java:176 | one `readLine`/`nextLine`: a terminator-free line that is a prefix of the input; the input left is a proper suffix; and what lies between is exactly one legal line break |
| Text.Lines | app/Main.java:152-153 | the lines yielded contain no terminator; there are none exactly when the input is empty, and never more than its length |
| Text.NextLineAdvances | app/Main.java:176-179 | taking one more line keeps "lines taken so far, then the lines of the rest" equal to the lines of the whole text |
| Text.Join | app/Main.java:154-155 | each line followed by the separator: the output ends with the separator when there is a line, and is empty exactly when there are no lines |
| Text.JoinAppend | app/Main.java:154-155 | one more written line extends the output by exactly that line and the separator |
| Text.LinesOfJoin | app/Main.java:176-179 | reading back what was written gives exactly the lines written, for every host separator |
| Text.SaveLoadRoundTrip | app/Main.java:150-156 | save then load keeps the lines of any text, and a second save-load cycle changes nothing |
| Paths.Pieces | app/Main.java:203 | every piece between backslashes is backslash-free, and there is always at least one |
| Paths.PiecesJoin | app/Main.java:203 | the pieces rejoined with backslashes spell the string again |
| Paths.SplitOfComponents | app/Main.java:203 | `split` of backslash-joined backslash-free directories followed by a non-empty backslash-free name gives back exactly those directories and that name |
| Paths.PiecesOfJoin | app/Main.java:203 | splitting backslash-joined directories followed by a name gives back exactly those directories and that name |
| Paths.DropTrailingEmpty | app/Main.java:203 | the result is a prefix of the pieces without trailing empty pieces, and only empty pieces were dropped |
| Paths.SplitBackslash | app/Main.java:203 | Java's split: a string with no backslash comes back as itself; otherwise the pieces are backslash-free and the last is non-empty |
| Paths.DirectoryOf | app/Main.java:202-206 | the derived directory is empty or ends in "/", contains no backslash, and is "" for a path with no backslash |
| Paths.Directory | app/Main.java:198-211 | "C:/" when nothing is remembered, otherwise empty or ending in "/" |
| Paths.DirectoryOfComponents | app/Main.java:202-210 | for directories and a name joined by backslashes, the directory is those directories each followed by "/", and the file name is the name |
| Paths.FileName | app/Main.java:117 | `getName`: a backslash-free suffix of the path, preceded by a backslash unless it is the whole path |
| Paths.FileNameAfterBackslash | app/Main.java:117 | the name after a final backslash is the whole of what `getName` returns |
| Paths.WithTxtExtension | app/Main.java:253-255 | always ends in ".txt"; unchanged exactly when the path already ends in ".txt"; otherwise the path followed by exactly ".txt" |
| Paths.WithTxtExtensionIdempotent | app/Main.java:253-255 | normalising twice is normalising once |
| App.TitleFor | app/Main.java:117-121 | the title expression of `setFilePath`; it has no ensures, and its meaning is stated by `App.TitleNamesFile` |
| App.TitleNamesFile | app/Main.java:117-121 | the window title is "File" exactly when no path is remembered, and otherwise ends in the remembered file's name |
| App.WriteEvents | app/Main.java:152-155 | two write calls per line, all on the file being saved |
| App.WrittenIsJoin | app/Main.java:152-155 | the chunks the save loop writes add up to the joined lines |
| App.SaveTrace | app/Main.java:145-162 | a save that opens its file records the path first and makes two write calls per line; one that cannot open shows the error dialog and nothing else |
| App.SaveTraceOrder | app/Main.java:146-161 | a save that opens its file records the path before any write, then writes only to that file, exactly the joined lines; a save that cannot open shows only the error dialog |
| App.ReadResult | app/Main.java:168-191 | a missing file gives ""; a read that fails returns a single terminator-free line; a read that does not fail returns the file's lines, each followed by the separator |
| App.ReadResultMeaning | app/Main.java:168-191 | a missing file gives ""; a successful read returns the joined lines of the file, which split back into exactly the file's lines and end with the separator unless empty; a failed read returns one terminator-free line |
| App.SavedFileReadsBack | app/Main.java:176-183 | a file that was saved reads back as exactly what was written |
| App.ChooserTrace | app/Main.java:241-258 | the chooser opens first, and when no path is chosen nothing else happens |
| App.ChooserTraceShape | app/Main.java:241-258 | the chooser opens first; a save is attempted exactly when a path was chosen; every path recorded ends in ".txt" |
| App.CloseTrace | app/Main.java:77-91 | the handler's observable steps around the chooser's steps; it has no ensures, and its meaning is stated by `App.CloseAlwaysExits` and `App.CloseWithChooserAlwaysExits` |
| App.CloseAlwaysExits | app/Main.java:77-91 | when the chooser returns (it is given as a trace), closing always ends with closing the window and exiting, never exits earlier, and shows the confirmation first, and at all, exactly when there are changes |
| App.CloseWithChooserAlwaysExits | app/Main.java:77-91 | with the save chooser of `showSaveChooser` (the `CloseTrace` of the handler), closing ends with closing and exiting, never exits earlier, and confirms first, and at all, exactly when there are changes |
| App.CloseRunsChooser | app/Main.java:79-84 | the chooser runs exactly when there are changes and the answer is OK, and every path recorded comes from it |
| App.CloseSavesOnlyWhenAsked | app/Main.java:77-91 | the chooser opens iff changed and OK; a save is attempted iff, in addition, a path was chosen; every recorded path ends in ".txt" |
| App.EditorApp.constructor | app/Main.java:45-57 | after start the remembered path is cleared, the title is "File", the host's line separator is the one given, and the files are those on disk |
| App.EditorApp.GetFilePath | app/Main.java:131-138 | returns exactly the remembered path, or none when nothing is remembered |
| App.EditorApp.SetFilePath | app/Main.java:111-138 | `getFilePath` then returns exactly the path given (or none), the title names it, and the preference write (or removal) is recorded; nothing else changes |
| App.EditorApp.GetDirectory | app/Main.java:198-211 | the loop's result is `Directory` of the remembered path |
| App.EditorApp.SaveToFile | app/Main.java:145-162 | the trace grows by `SaveTrace`; an opened file ends up holding the joined lines and becomes the remembered path; a failed open changes nothing else |
| App.EditorApp.WriteLines | app/Main.java:150-156 | the loop writes, and buffers, exactly the joined lines of the content |
| App.EditorApp.ReadFromFile | app/Main.java:168-191 | returns `ReadResult` of the file; the path is recorded last on success and failure alike, after the error dialog on failure |
| App.EditorApp.ReadLines | app/Main.java:176-179 | the loop fails exactly when a failing call is reached; it then holds the last line read, and otherwise the joined lines |
| App.EditorApp.ShowSaveChooser | app/Main.java:241-258 | the chooser opens on `Directory` of the remembered path; the ".txt"-normalised choice is saved with the editor's text |
| App.EditorApp.OnCloseRequest | app/Main.java:77-91 | copies the changed flag, and the trace grows by `CloseTrace` around the chooser's trace; files and path change only when a save succeeds |

## Left out

- JavaFX stage, scene, FXML and icon loading, and the look of the dialogs are UI. The dialogs' answers are parameters.
- `Preferences` persistence is a field. The remembered path is written as given: `File.getPath` normalisation (on Windows, "/" becomes "\\" and repeated separators collapse) is not modelled.
- App.EditorApp.GetDirectory: `getAbsolutePath` is taken as the identity, because resolving a relative path against the working directory is a call into the platform.
- Paths.FileName: takes the text after the last backslash, which is `getName` on Windows; a drive-relative prefix such as "C:name" is not split off.
- Windows-1250 encoding and decoding are the identity on characters. `UnsupportedEncodingException` is treated as any other failure to open.
- `Scanner` also ends lines at U+2028, U+2029 and U+0085 and `readLine` does not. Both are modelled with "\n", "\r" and "\r\n" only.
- App.EditorApp.SaveToFile: a failure partway through writing, or on `close`, is not modelled; opening either fails or the whole text is written.
- App.EditorApp.ReadFromFile: a failure of `close` after a full read is not modelled; the only failures are a missing file and a throwing `readLine`.
- App.CloseAlwaysExits: the save chooser is taken to return a path or none. `showSaveDialog` can instead throw when its starting folder is not an existing directory. That is always the case for the "" that `getDirectory` gives, and for "C:/" off Windows. Nothing in the handler catches the exception, and the close event has already been consumed, so the window would stay open.
- App.CloseWithChooserAlwaysExits: proved for the save chooser as modelled, which returns a path or none; a `showSaveDialog` that throws for a start folder that does not exist would leave the window open, and that case is not modelled.
- App.EditorApp.OnCloseRequest: its trace always ends with closing and exiting because the chooser is taken to return; a `showSaveDialog` that throws after the close event was consumed would leave the window open, and that case is not modelled.
- `System.exit` and `mainWindow.close` are recorded as actions and end nothing.
- The line-cleanup transforms live in `app.view.rootLayoutController`, which is not part of this model. The controller's text and changed flag are parameters.
- Opening a file through a chooser is not part of this model. `ReadFromFile` is given the chosen path.
