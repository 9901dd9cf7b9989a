# ListGitRepo repository registry in Dafny

ListGitRepo is a WPF window that keeps a list of Git repositories. Each entry is a
`GitRepository` record with six string properties: name, URL, local path, branch,
last commit and status. The window's handlers change the list and the records in place:

- **Add** trims the text of the URL box and refuses a blank or already-listed URL.
  - URLs are compared ordinally, ignoring case.
  - Otherwise it appends a new record with the status "Non cloné". The record is
    named after the URL's last path segment without its extension.
  - Its working copy is usually the folder of that name under the base directory.
    There are two exceptions. A URL ending in a separator gives an empty name, and
    then the working copy is the base directory itself. A name with a root of its
    own, such as `C:tool`, is itself the working copy.
- **Remove** takes the selected record out of the list once the user confirms.
- **Refresh** (`LoadRepositories`) empties the list.
- **Clone** finds the record for the URL in the box, adding it first if needed.
  - The record becomes "Clonage...", then "À jour" or "Erreur".
- **Pull** moves the selected record through "Mise à jour...".
  - On success it becomes "À jour" and its branch and last commit are filled in.
  - On failure it becomes "Erreur".

The model is split into modules:

- `Models` (`git_repository.dfy`): the record as a class with six mutable fields and one
  setter per property.
- `Strings` (`strings.dfy`): the .NET string operations the handlers rely on.
  - `Char.IsWhiteSpace`, `String.Trim`, `String.IsNullOrWhiteSpace`.
  - Ordinal case-insensitive equality.
- `Paths` (`paths.dfy`): the `System.IO.Path` operations that derive a record's name
  and working-copy folder.
  - `GetFileName`, `GetFileNameWithoutExtension`, `IsPathRooted` and `Combine`, with
    Windows separators and Windows path roots (drive letters, network shares, device
    paths).
- `Lookup` (`lookup.dfy`): the list queries and the removal.
  - The LINQ queries `Any` and `FirstOrDefault`.
  - `Collection<T>.Remove`, which deletes the first occurrence.
  - The pairwise-distinctness predicates.
- `Registry` (`registry.dfy`): the window, as a class holding the following, with one
  method per handler:
  - the record list;
  - the selection;
  - the text of the URL box and of the base-directory box;
  - the user's documents folder.

The window keeps an invariant, `Registry.MainWindow.Valid`:

- the listed records are distinct objects;
- every record has a non-empty URL and one of the five statuses;
- no two URLs are equal ignoring case.

Every handler is proved to preserve it.

The Git library calls are parameters of the handlers. `CloneOutcome` stands for the
clone, and `PullOutcome` for the pull with the head's name and its tip's message.

The clone handler is modelled twice:

- **`CloneRepoAsWritten`** follows the code line by line. Two defects show up; see
  Findings.
- **`CloneRepo`** is the intended behaviour. The rest of the model uses this one.

Each record carries a ghost `statusHistory`: every value given to its `Status` setter,
in order. This is what a user watching the list sees. The contracts of the intended
clone and of the pull state the whole sequence of statuses, not just the last one. So
does the as-written clone for a record that was already listed. For a record it
appends, the as-written clone states only the final status (see "## Left out").

## Model

| member | source | states |
|---|---|---|
| Models.GitRepository.constructor | ListGitRepo/Models/GitRepository.cs:5-72 | a new record has all six properties unset (null) and no status change yet |
| Models.GitRepository.SetName | ListGitRepo/Models/GitRepository.cs:10-15 | the getter then returns the value given; the other five properties are unchanged |
| Models.GitRepository.SetUrl | ListGitRepo/Models/GitRepository.cs:21-26 | the getter then returns the value given; the other five properties are unchanged |
| Models.GitRepository.SetLocalPath | ListGitRepo/Models/GitRepository.cs:32-37 | the getter then returns the value given; the other five properties are unchanged |
| Models.GitRepository.SetBranch | ListGitRepo/Models/GitRepository.cs:43-48 | the getter then returns the value given; the other five properties are unchanged |
| Models.GitRepository.SetLastCommit | ListGitRepo/Models/GitRepository.cs:54-59 | the getter then returns the value given; the other five properties are unchanged |
| Models.GitRepository.SetStatus | ListGitRepo/Models/GitRepository.cs:65-70 | the getter then returns the value given, the other five are unchanged, and the value is appended to the status history |
| Strings.IsWhiteSpace | ListGitRepo/MainWindow.xaml.cs:104 | `Char.IsWhiteSpace` as a list of the Unicode White_Space characters; `Strings.TrimIsSliceWithoutOuterWhiteSpace` states how `Trim` uses it |
| Strings.IsNullOrWhiteSpace | ListGitRepo/MainWindow.xaml.cs:60 | `String.IsNullOrWhiteSpace` for a non-null text: every character is white space; `Strings.TrimEmptyIffBlank` ties it to `Trim` |
| Strings.LeadingWhiteSpace | ListGitRepo/MainWindow.xaml.cs:104 | counts the leading white space: at most the length, and the first character after it is not white space |
| Strings.LeadingWhiteSpaceIsBlank | ListGitRepo/MainWindow.xaml.cs:104 | every character of the counted prefix is white space |
| Strings.TrailingWhiteSpace | ListGitRepo/MainWindow.xaml.cs:104 | counts the trailing white space: at most the length, and the last character before it is not white space |
| Strings.TrailingWhiteSpaceIsBlank | ListGitRepo/MainWindow.xaml.cs:104 | every character of the counted suffix is white space |
| Strings.Trim | ListGitRepo/MainWindow.xaml.cs:104 | `String.Trim()`; its contract is `Strings.TrimIsSliceWithoutOuterWhiteSpace`, with `Strings.TrimEmptyIffBlank` and `Strings.TrimIdempotent` |
| Strings.TrimIsSliceWithoutOuterWhiteSpace | ListGitRepo/MainWindow.xaml.cs:104 | `Trim` returns a contiguous slice of the input; both cut-off parts are all white space; the result neither starts nor ends with white space |
| Strings.TrimEmptyIffBlank | ListGitRepo/MainWindow.xaml.cs:104-105 | the trimmed URL is empty exactly when the text is null-or-white-space |
| Strings.TrimIdempotent | ListGitRepo/MainWindow.xaml.cs:153 | trimming an already trimmed text changes nothing |
| Strings.ToUpperOrdinal | ListGitRepo/MainWindow.xaml.cs:114 | an ASCII lower-case letter maps to the upper-case letter at the same place in the alphabet; every other character is kept |
| Strings.ToUpperOrdinalString | ListGitRepo/MainWindow.xaml.cs:114 | upper-casing keeps the length |
| Strings.ToUpperOrdinalStringPointwise | ListGitRepo/MainWindow.xaml.cs:114 | upper-casing maps each character on its own, position by position |
| Strings.EqualsIgnoreCase | ListGitRepo/MainWindow.xaml.cs:114 | `String.Equals(s, StringComparison.OrdinalIgnoreCase)`; its contract is `Strings.EqualsIgnoreCaseIffSameUpperCase`, with `Strings.EqualsIgnoreCaseBasics` |
| Strings.EqualsIgnoreCaseIffSameUpperCase | ListGitRepo/MainWindow.xaml.cs:114 | the character-by-character comparison holds exactly when the upper-cased strings are equal |
| Strings.EqualsIgnoreCaseBasics | ListGitRepo/MainWindow.xaml.cs:114 | equal strings compare equal ignoring case; strings equal ignoring case have the same length |
| Paths.FileNameStart | ListGitRepo/MainWindow.xaml.cs:121 | the `LastIndexOfAny` step of `GetFileName`: the index just after the last separator lies within the path |
| Paths.FileNameStartIsAfterLastSeparator | ListGitRepo/MainWindow.xaml.cs:121 | the `LastIndexOfAny` step: a separator stands just before that index, and none occurs after it. `GetFileName` then also skips the root; see `Paths.GetFileNameIsLastSegment` |
| Paths.NextSeparator | ListGitRepo/MainWindow.xaml.cs:121 | the scan of the root for a separator stays within the path |
| Paths.NextSeparatorIsFirst | ListGitRepo/MainWindow.xaml.cs:121 | the scan stops at the first separator from its start, or at the end |
| Paths.RootLength | ListGitRepo/MainWindow.xaml.cs:121 | the length of the Windows path root that `GetFileName` never cuts into: drive, share, device prefix or leading separator. It lies within the path |
| Paths.RootLengthIffRooted | ListGitRepo/MainWindow.xaml.cs:121 | a path has a root exactly when `IsPathRooted` holds of it |
| Paths.GetFileName | ListGitRepo/MainWindow.xaml.cs:121 | `Path.GetFileName`; its contract is `Paths.GetFileNameIsLastSegment`: the file name is no longer than the path |
| Paths.GetFileNameIsLastSegment | ListGitRepo/MainWindow.xaml.cs:121 | the file name is a separator-free suffix of the path that contains no part of the root. It is the whole path, or it follows a separator, or it follows the root |
| Paths.DriveRelativeFileName | ListGitRepo/MainWindow.xaml.cs:121 | the drive of a drive-relative path is root, not name: `C:tool.git` gives `tool.git` |
| Paths.LastIndexOfDot | ListGitRepo/MainWindow.xaml.cs:121 | the index found lies within the string |
| Paths.LastIndexOfDotIsLast | ListGitRepo/MainWindow.xaml.cs:121 | the index found holds a '.' with no '.' after it; none is found only when the string has no '.' |
| Paths.RemoveExtension | ListGitRepo/MainWindow.xaml.cs:121 | the cut of a file name at its last '.'; its contract is `Paths.RemoveExtensionCutsLastDot` |
| Paths.RemoveExtensionCutsLastDot | ListGitRepo/MainWindow.xaml.cs:121 | the cut is a prefix of the name, separator-free when the name is. The name is kept whole when it has no '.', else cut at its last '.' |
| Paths.GetFileNameWithoutExtension | ListGitRepo/MainWindow.xaml.cs:121 | `Path.GetFileNameWithoutExtension`; its contract is `Paths.GetFileNameWithoutExtensionCutsLastDot` |
| Paths.GetFileNameWithoutExtensionCutsLastDot | ListGitRepo/MainWindow.xaml.cs:121 | the name is a separator-free prefix of the file name. It is the whole file name when that has no '.', else it is cut at the last '.' |
| Paths.IsPathRooted | ListGitRepo/MainWindow.xaml.cs:126 | `Path.IsPathRooted` on Windows: a leading separator, or a drive letter and ':'; `Paths.RootLengthIffRooted` ties it to the root |
| Paths.Combine | ListGitRepo/MainWindow.xaml.cs:126 | `Path.Combine` for two non-null parts; its contract is `Paths.CombineJoins`, with `Paths.CombineThenGetFileName` |
| Paths.CombineJoins | ListGitRepo/MainWindow.xaml.cs:126 | `Path.Combine` on Windows. An empty second part returns the first part. A rooted second part, or an empty first part, returns the second part. Otherwise the result is the first part, then the second part, with a `\` inserted between them exactly when the first part does not already end with a separator |
| Paths.CombineThenGetFileName | ListGitRepo/MainWindow.xaml.cs:121-126 | for a non-empty name without separators or root, the file name of `Combine(base, name)` is `name` again exactly when the root of the joined path ends before `name`. This fails, for example, for the base `\\server`, whose root swallows the name |
| Lookup.ContainsUrl | ListGitRepo/MainWindow.xaml.cs:114 | `Repositories.Any(r => r.Url.Equals(url, OrdinalIgnoreCase))` on the URLs; its contract is `Lookup.ContainsUrlIffSomeMatch` |
| Lookup.ContainsUrlIffSomeMatch | ListGitRepo/MainWindow.xaml.cs:114 | `Any` holds exactly when some listed URL equals the given one ignoring case |
| Lookup.IndexOfUrl | ListGitRepo/MainWindow.xaml.cs:154 | a position found by `FirstOrDefault` lies within the list |
| Lookup.IndexOfUrlIsFirstMatch | ListGitRepo/MainWindow.xaml.cs:154 | the position found holds a match and no earlier URL matches. Nothing is found only when no URL matches |
| Lookup.ContainsIffIndexOfUrl | ListGitRepo/MainWindow.xaml.cs:154-160 | the duplicate check of Add and the lookup of Clone agree |
| Lookup.EmptyUrlNeverFound | ListGitRepo/MainWindow.xaml.cs:186 | when no listed URL is empty, looking up the empty text finds nothing |
| Lookup.AppendedUrlIsListed | ListGitRepo/MainWindow.xaml.cs:114-130 | a URL just appended is listed, so adding it again is refused |
| Lookup.AppendKeepsDistinct | ListGitRepo/MainWindow.xaml.cs:114-130 | appending a URL that passed the duplicate check keeps the URLs distinct ignoring case |
| Lookup.RemoveAtKeepsDistinct | ListGitRepo/MainWindow.xaml.cs:295 | deleting one URL keeps the others distinct ignoring case |
| Lookup.IndexOf | ListGitRepo/MainWindow.xaml.cs:295 | a position found holds the item |
| Lookup.IndexOfIsFirstOccurrence | ListGitRepo/MainWindow.xaml.cs:295 | the position found is the first occurrence. Nothing is found only when the item is absent |
| Lookup.RemoveFirst | ListGitRepo/MainWindow.xaml.cs:295 | `Collection<T>.Remove`; its contract is `Lookup.RemoveFirstDeletesFirstOccurrence`, with `Lookup.RemoveFirstIdempotent` |
| Lookup.RemoveFirstDeletesFirstOccurrence | ListGitRepo/MainWindow.xaml.cs:295 | `Remove` leaves the list as it is when the item is absent. Otherwise it deletes exactly its first occurrence and keeps the others in order |
| Lookup.RemoveAtKeepsNoDuplicates | ListGitRepo/MainWindow.xaml.cs:295 | deleting one item keeps the others pairwise distinct |
| Lookup.RemoveAtKeepsItemsOf | ListGitRepo/MainWindow.xaml.cs:295 | deleting one item adds no item |
| Lookup.RemoveFirstIdempotent | ListGitRepo/MainWindow.xaml.cs:294-295 | in a list without duplicates the removed record is gone, and removing it again changes nothing |
| Registry.BaseRepositoryPath | ListGitRepo/MainWindow.xaml.cs:374-382 | the `BaseRepositoryPath` getter; its contract is `Registry.BaseRepositoryPathNeverBlank` |
| Registry.BaseRepositoryPathNeverBlank | ListGitRepo/MainWindow.xaml.cs:374-382 | the base path is the box's text when that is not blank, otherwise a path ending in the `Git` folder. It is never blank |
| Registry.NewRecord | ListGitRepo/MainWindow.xaml.cs:121-128 | the fields the Add handler gives a new record; its contract is `Registry.NewRecordPlacement` |
| Registry.NewRecordPlacement | ListGitRepo/MainWindow.xaml.cs:121-128 | a new record is named after the URL's last segment, without separators and without extension. For a non-empty name without a root of its own, the working copy starts with the base path followed by more, and its file name is the record's name exactly when the working copy's root ends before the name. A rooted name such as `C:tool` is itself the working copy; an empty name gives the base path |
| Registry.UrlsOf | ListGitRepo/MainWindow.xaml.cs:114 | one URL per record |
| Registry.UrlsOfPointwise | ListGitRepo/MainWindow.xaml.cs:114 | the k-th URL is the URL of the k-th record |
| Registry.AppendKeepsValid | ListGitRepo/MainWindow.xaml.cs:114-130 | appending a fresh record whose URL is not listed keeps the invariant and appends its URL |
| Registry.RemoveKeepsValid | ListGitRepo/MainWindow.xaml.cs:292-295 | removing a record keeps the invariant, and the record is no longer listed |
| Registry.UrlsOfRemoveAt | ListGitRepo/MainWindow.xaml.cs:295 | deleting a record deletes its URL from the URLs |
| Registry.ListedUrlsNonEmpty | ListGitRepo/MainWindow.xaml.cs:125 | no listed URL is empty |
| Registry.AsWrittenClonesUnrelatedRecord | ListGitRepo/MainWindow.xaml.cs:143-159 | as written, a blank but non-empty URL text clones the last listed record, whose URL is not the text |
| Registry.AsWrittenFailedCloneStaysCloning | ListGitRepo/MainWindow.xaml.cs:153-189 | as written, a failed clone of a URL not yet listed leaves the appended record "Clonage..." |
| Registry.ClonedRecordMatchesUrl | ListGitRepo/MainWindow.xaml.cs:153-160 | the intended clone works on nothing exactly when the URL is blank. Otherwise it works on the first record whose URL matches, or on the one appended because none matched. It never ends in "Clonage..." |
| Registry.CreateRecord | ListGitRepo/MainWindow.xaml.cs:121-128 | the object initializer gives a fresh record exactly the derived name, URL, local path and status "Non cloné" |
| Registry.MainWindow.constructor | ListGitRepo/MainWindow.xaml.cs:55-71 | the window starts with an empty list, an empty URL box and the saved base path, or the default one when the saved path is blank |
| Registry.MainWindow.SetRepoUrlText | ListGitRepo/MainWindow.xaml.cs:104 | the user's input: typing into the URL box that `txtRepoUrl.Text` reads. It writes that box and nothing else |
| Registry.MainWindow.SetBaseRepositoryPath | ListGitRepo/MainWindow.xaml.cs:383 | the setter writes the base-directory box and nothing else |
| Registry.MainWindow.SelectRepository | ListGitRepo/MainWindow.xaml.cs:45-50 | the setter changes the selection and nothing else |
| Registry.MainWindow.LoadRepositories | ListGitRepo/MainWindow.xaml.cs:82-100 | the list becomes empty; the selection and the boxes are kept (also the effect of `BtnRefresh_Click`, lines 301-305) |
| Registry.MainWindow.AddRepo | ListGitRepo/MainWindow.xaml.cs:102-139 | a blank URL gives `EmptyUrl` and a listed one `DuplicateUrl`, leaving the list and box as they were. Otherwise exactly one fresh record with the derived fields is appended, the earlier records keep identity and order, the URL box is cleared and the invariant holds |
| Registry.MainWindow.RemoveSelected | ListGitRepo/MainWindow.xaml.cs:281-299 | without a selection or confirmation nothing changes. Otherwise the list becomes `Remove(selected)` and the selected record is gone. No record's fields change and the invariant holds |
| Registry.MainWindow.SetStatusAt | ListGitRepo/MainWindow.xaml.cs:165 | assigning a status changes only that record's status and keeps the invariant and the URLs |
| Registry.MainWindow.MarkCloneFailed | ListGitRepo/MainWindow.xaml.cs:186-190 | the record found again by the URL box's trimmed text becomes "Erreur"; every other record is unchanged |
| Registry.MainWindow.CloneTargetAsWritten | ListGitRepo/MainWindow.xaml.cs:153-160 | the record worked on is the first match. Otherwise it is the one the Add appends, or the last record when the Add refused a blank text. The error handler will find it again exactly when its URL was listed before |
| Registry.MainWindow.FinishCloneAsWritten | ListGitRepo/MainWindow.xaml.cs:162-190 | the record goes through "Clonage..." to "À jour", or to "Erreur" only when the error handler finds it again. No other record changes |
| Registry.MainWindow.CloneRepoAsWritten | ListGitRepo/MainWindow.xaml.cs:141-194 | the handler as written: gives the record it works on and the statuses it leaves there, says an appended record is a new object, keeps every other record, and clears the URL box exactly when it appended a record |
| Registry.MainWindow.CloneTarget | ListGitRepo/MainWindow.xaml.cs:153-160 | the intended lookup-or-add. A blank URL gives nothing. Otherwise it gives the first match, or a fresh record appended with the derived fields; the URL box is cleared exactly when a record was appended |
| Registry.MainWindow.FinishClone | ListGitRepo/MainWindow.xaml.cs:162-190 | the record goes through "Clonage..." to "À jour" or "Erreur"; only its status changes |
| Registry.MainWindow.CloneRepo | ListGitRepo/MainWindow.xaml.cs:141-194 | the intended handler: the record for the trimmed URL, a new object when it is appended, goes through "Clonage..." to "À jour" or "Erreur". Its branch and last commit are untouched, no other record changes, the URL box is cleared exactly when a record was appended, and the invariant holds |
| Registry.MainWindow.Pull | ListGitRepo/MainWindow.xaml.cs:196-251 | without a selection nothing changes. Otherwise the record goes through "Mise à jour..." to "Erreur", keeping branch and last commit, or to "À jour" whether or not the merge was a no-op. On success the branch is the head's name and the last commit is the tip's message or "Aucun commit". Name, URL and local path never change |

## Left out

- The Git library (`Repository.Clone`, `Commands.Pull`, `new Repository`, `Head`, `Tip`, the fixed signature) is a foreign library. Its result is a parameter of the handler: `CloneOutcome` or `PullOutcome`.
- `Task.Run` and `Dispatcher.Invoke` are threading, which is out of scope. Each handler is one sequential step.
  - Races such as the selection changing during a pull are not modelled.
  - Nor is the fact that WPF refuses to read a text box from a background thread: the clone handler reads `txtRepoUrl.Text` inside `Task.Run`. The model reads the box's value as if on the window's thread.
- `MessageBox`, `ShowError`, `UpdateStatus`, the window's status label, the last-update timestamp (`DateTime.Now`), `UpdateButtonStates` and `PropertyChanged` events are presentation only. The record's change notifications appear only as its status history.
- The Remove confirmation dialog is a parameter of `RemoveSelected`. `BtnOpenFolder_Click`, `BtnOpenInExplorer_Click` and `BtnBrowse_Click` are shell and dialog work. `BtnRefresh_Click` is `LoadRepositories` followed by a status message, so its effect is the `LoadRepositories` row.
- `SaveRepositories` only refreshes the timestamp. `TxtBaseDirectory_TextChanged` saves the box's text to the settings. Both are configuration I/O. The saved base path is a parameter of the window's constructor.
- `Environment.GetFolderPath(MyDocuments)` is environment I/O. It is the window's `documentsFolder` constant.
- `Directory.CreateDirectory(Path.GetDirectoryName(...))` in the clone is filesystem I/O. Its failure is part of `CloneFailed`.
- `Paths.GetFileName` and `Paths.Combine` follow the path rules of .NET Core and .NET 5 or later on Windows. Only `\` and `/` are separators, and a file name never takes part of the path root that `Path.GetPathRoot` measures: `C:tool.git` names `tool.git`, and `\\server\share` has no file name.
  - .NET Framework also ends a file name at every ':'. For example, `"git@host:tool.git"` names the record `tool` there; the model names it `git@host:tool`.
  - .NET Framework's `Combine` inserts no separator after a first part ending in ':'. For example, `"D:"` and `"tool"` give `D:tool` there; the model gives `D:\tool`.
  - .NET Framework also raises an exception for a path containing invalid path characters. Such an Add would end in the error message with the list unchanged. This is not modelled.
- `Paths.Combine` follows .NET on Windows for two non-null arguments. The `ArgumentNullException` for null and the invalid-character check are not modelled.
- `Strings.EqualsIgnoreCase` folds only ASCII letters. Ordinal case-insensitive comparison also folds non-ASCII letters by the invariant upper-case table, which is not modelled.
- `Strings.IsWhiteSpace` is the Unicode White_Space set, which is what `Char.IsWhiteSpace` tests.
- `Registry.Listed` asks every listed record to hold a non-empty URL. A record with a null URL would make `r.Url.Equals` throw, and no handler creates one.
- Registry.MainWindow.CloneRepoAsWritten: for a record it appends, it states only the final status, not the other fields. `Registry.MainWindow.CloneRepo` states them for the intended handler.
- `RemoveSelected` keeps the selection: the code-behind removes the record but does not clear `SelectedRepository`. How the view's binding updates `SelectedRepository` after a removal is not modelled.
- `LoadRepositories` only clears the list. The code reads nothing back, so no load/save round-trip is modelled.
- `RepositoryData.cs` (a data holder no code uses) and `WindowSettings.cs` (window geometry in the application settings) are not part of this model.

## Findings

| source | as written | input that shows it | evidently intended | confidence | as-written member | corrected member |
|---|---|---|---|---|---|---|
| ListGitRepo/MainWindow.xaml.cs:186 | the error handler finds the record again by the URL box's text, which the Add at line 158 has already cleared at line 132 | URL box "https://host/team/tool.git", not listed yet; the clone fails | the appended record becomes "Erreur" | not executed | Registry.AsWrittenFailedCloneStaysCloning | Registry.MainWindow.CloneRepo |
| ListGitRepo/MainWindow.xaml.cs:143 | the blank check tests the untrimmed text with `IsNullOrEmpty`; a text of spaces passes, the Add refuses it, and `Repositories.Last()` clones whatever record is last | URL box "   " with "https://host/team/tool.git" listed | a URL that is blank once trimmed is refused before any record is touched | not executed | Registry.AsWrittenClonesUnrelatedRecord | Registry.ClonedRecordMatchesUrl |
