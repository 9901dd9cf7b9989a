/** The repository list of the main window: the list itself, the selected record, the
    two text boxes it reads (the URL box and the base-directory box), and the handlers
    that add, remove, refresh, clone and pull. Git itself is represented only by the
    outcome each operation reports. */
module Registry {
  import opened Wrappers
  import opened Strings
  import opened Paths
  import opened Lookup
  import opened Models

  const StatusNotCloned := "Non cloné"
  const StatusCloning := "Clonage..."
  const StatusUpToDate := "À jour"
  const StatusUpdating := "Mise à jour..."
  const StatusError := "Erreur"

  /** Shown as the last commit of a repository whose head has no commit. */
  const NoCommitMessage := "Aucun commit"

  /** Folder under the user's documents that is the default base directory. */
  const DefaultFolderName := "Git"

  /** The five values the handlers give to a record's `Status`. */
  predicate IsRepositoryStatus(s: string) {
    s == StatusNotCloned || s == StatusCloning || s == StatusUpToDate || s == StatusUpdating || s == StatusError
  }

  /** Which message the Add handler ends with. */
  datatype AddResult = Added | EmptyUrl | DuplicateUrl

  /** What creating the parent folder and `Repository.Clone` did. */
  datatype CloneOutcome = CloneSucceeded | CloneFailed

  /** What opening the working copy and `Commands.Pull` did: on success, whether the
      merge found nothing to do, the friendly name of the head, and the short message
      of the head's tip commit (`None` when the head has no commit). */
  datatype PullOutcome =
    | PullFailed
    | PullSucceeded(alreadyUpToDate: bool, headName: string, tipMessage: Option<string>)

  /** The `BaseRepositoryPath` getter: the base-directory text when it is not blank,
      otherwise the `Git` folder under the user's documents folder. */
  function BaseRepositoryPath(baseDirectoryText: string, documentsFolder: string): string {
    if !IsNullOrWhiteSpace(baseDirectoryText) then baseDirectoryText
    else Combine(documentsFolder, DefaultFolderName)
  }

  /** The base path is never blank: a non-blank text is kept as it is, a blank one
      falls back to a path ending in `Git`. */
  lemma {:induction false} BaseRepositoryPathNeverBlank(baseDirectoryText: string, documentsFolder: string)
    ensures !IsNullOrWhiteSpace(BaseRepositoryPath(baseDirectoryText, documentsFolder))
    ensures !IsNullOrWhiteSpace(baseDirectoryText) ==> BaseRepositoryPath(baseDirectoryText, documentsFolder) == baseDirectoryText
    ensures IsNullOrWhiteSpace(baseDirectoryText) ==>
      var p := BaseRepositoryPath(baseDirectoryText, documentsFolder);
      |p| >= 3 && p[|p| - 3..] == DefaultFolderName
  {
    if IsNullOrWhiteSpace(baseDirectoryText) {
      var p := Combine(documentsFolder, DefaultFolderName);
      CombineJoins(documentsFolder, DefaultFolderName);
      assert p[|p| - 3..][0] == p[|p| - 3] == 'G';
    }
  }

  /** The record the Add handler builds for the trimmed URL `url` under `basePath`. */
  function NewRecord(url: string, basePath: string): RepositoryFields {
    var name := GetFileNameWithoutExtension(url);
    RepositoryFields(Some(name), Some(url), Some(Combine(basePath, name)), None, None, Some(StatusNotCloned))
  }

  /** A new record is named after the URL's last segment, without separators and
      without extension. When that name is not empty and has no root of its own, the
      working copy is the folder of that name under the base path, and its file name
      is the record's name exactly when its root ends before the name. A name with a
      root (`C:tool`) is itself the working copy, and an empty name gives the base
      path itself. */
  lemma {:induction false} NewRecordPlacement(url: string, basePath: string)
    ensures var f := NewRecord(url, basePath);
      && f.name.Some? && f.localPath.Some? && f.url == Some(url)
      && HasNoSeparator(f.name.value)
      && f.name.value == GetFileName(url)[..|f.name.value|]
      && (f.name.value != "" && basePath != "" && !IsPathRooted(f.name.value) ==>
            && |f.localPath.value| > |basePath|
            && f.localPath.value[..|basePath|] == basePath)
      && (f.name.value != "" && !IsPathRooted(f.name.value) ==>
            (GetFileName(f.localPath.value) == f.name.value
             <==> RootLength(f.localPath.value) + |f.name.value| <= |f.localPath.value|))
      && (f.name.value != "" && (basePath == "" || IsPathRooted(f.name.value)) ==> f.localPath.value == f.name.value)
      && (f.name.value == "" ==> f.localPath.value == basePath)
  {
    var name := GetFileNameWithoutExtension(url);
    GetFileNameWithoutExtensionCutsLastDot(url);
    CombineJoins(basePath, name);
    if name != "" && !IsPathRooted(name) {
      CombineThenGetFileName(basePath, name);
    }
  }

  /** The URLs of a list of records, in order (a record without URL contributes ""). */
  function UrlsOf(rs: seq<GitRepository>): (urls: seq<string>)
    reads rs
    ensures |urls| == |rs|
  {
    if rs == [] then [] else [rs[0].url.GetOr("")] + UrlsOf(rs[1..])
  }

  /** The `i`-th URL is the URL of the `i`-th record. */
  lemma {:induction false} UrlsOfPointwise(rs: seq<GitRepository>)
    ensures forall i {:trigger UrlsOf(rs)[i]} :: 0 <= i < |rs| ==> UrlsOf(rs)[i] == rs[i].url.GetOr("")
  {
    if rs != [] {
      UrlsOfPointwise(rs[1..]);
      assert forall i :: 1 <= i < |rs| ==> UrlsOf(rs)[i] == UrlsOf(rs[1..])[i - 1];
    }
  }

  /** What every listed record satisfies: a non-empty URL and one of the five statuses. */
  ghost predicate Listed(r: GitRepository)
    reads r
  {
    r.url.Some? && r.url.value != "" && r.status.Some? && IsRepositoryStatus(r.status.value)
  }

  /** The registry invariant over a list of records: distinct objects, each `Listed`,
      whose URLs are pairwise different ignoring case. */
  ghost predicate ValidList(rs: seq<GitRepository>)
    reads rs
  {
    && NoDuplicates(rs)
    && (forall r :: r in rs ==> Listed(r))
    && DistinctIgnoringCase(UrlsOf(rs))
  }

  /** Appending a fresh listed record whose URL is not listed yet, as the Add handler
      does, keeps the invariant and appends that URL to the URLs. */
  lemma {:induction false} AppendKeepsValid(rs: seq<GitRepository>, repo: GitRepository)
    requires ValidList(rs) && Listed(repo) && repo !in rs
    requires !ContainsUrl(UrlsOf(rs), repo.url.value)
    ensures ValidList(rs + [repo])
    ensures UrlsOf(rs + [repo]) == UrlsOf(rs) + [repo.url.value]
  {
    var s := rs + [repo];
    assert forall r :: r in s ==> r in rs || r == repo;
    UrlsOfPointwise(rs);
    UrlsOfPointwise(s);
    assert UrlsOf(s) == UrlsOf(rs) + [repo.url.value];
    AppendKeepsDistinct(UrlsOf(rs), repo.url.value);
  }

  /** Removing a record, as the Remove handler does, keeps the invariant, and the
      record is no longer listed. */
  lemma {:induction false} RemoveKeepsValid(rs: seq<GitRepository>, x: GitRepository)
    requires ValidList(rs)
    ensures ValidList(RemoveFirst(rs, x))
    ensures x !in RemoveFirst(rs, x)
  {
    RemoveFirstIdempotent(rs, x);
    RemoveFirstDeletesFirstOccurrence(rs, x);
    if IndexOf(rs, x).Some? {
      var i := IndexOf(rs, x).value;
      RemoveAtKeepsNoDuplicates(rs, i);
      RemoveAtKeepsItemsOf(rs, i);
      RemoveAtKeepsDistinct(UrlsOf(rs), i);
      UrlsOfRemoveAt(rs, i);
    }
  }

  /** The URLs of a list with one record deleted are the URLs with that entry deleted. */
  lemma {:induction false} UrlsOfRemoveAt(rs: seq<GitRepository>, i: nat)
    requires i < |rs|
    ensures UrlsOf(rs[..i] + rs[i + 1..]) == UrlsOf(rs)[..i] + UrlsOf(rs)[i + 1..]
  {
    var t := rs[..i] + rs[i + 1..];
    UrlsOfPointwise(rs);
    UrlsOfPointwise(t);
    assert forall k :: 0 <= k < |t| ==> t[k] == if k < i then rs[k] else rs[k + 1];
  }

  /** No listed URL is empty. */
  lemma {:induction false} ListedUrlsNonEmpty(rs: seq<GitRepository>)
    requires ValidList(rs)
    ensures forall k :: 0 <= k < |UrlsOf(rs)| ==> UrlsOf(rs)[k] != ""
  {
    UrlsOfPointwise(rs);
    forall k | 0 <= k < |UrlsOf(rs)| ensures UrlsOf(rs)[k] != "" {
      assert Listed(rs[k]);
    }
  }

  /** The record the clone handler as written works on, as an index into the list after
      the handler's own Add: the first record whose URL matches the trimmed text;
      otherwise the record the Add appends; and when the Add refuses a blank text, the
      last record already listed, whatever its URL. */
  function ClonedIndexAsWritten(urlText: string, urls: seq<string>): Option<nat> {
    if urlText == "" then None
    else
      match IndexOfUrl(urls, Trim(urlText))
      case Some(i) => Some(i)
      case None =>
        if Trim(urlText) != "" then Some(|urls|)
        else if urls == [] then None
        else Some(|urls| - 1)
  }

  /** The status a clone as written ends with on its record: "À jour" when the clone
      succeeds; when it fails, "Erreur" if the error handler finds the record again,
      and "Clonage..." otherwise. */
  function CloneFinalStatus(outcome: CloneOutcome, refound: bool): string {
    if outcome.CloneSucceeded? then StatusUpToDate
    else if refound then StatusError
    else StatusCloning
  }

  /** The statuses a clone as written gives its record, in order. */
  function CloneStatuses(outcome: CloneOutcome, refound: bool): seq<Option<string>> {
    if outcome.CloneFailed? && !refound then [Some(StatusCloning)]
    else [Some(StatusCloning), Some(CloneFinalStatus(outcome, refound))]
  }

  /** The error handler of the clone as written looks the record up again by the text
      of the URL box, which the Add has cleared and which is blank when the Add refused
      it: it finds the record only when the URL was listed before. */
  function RefoundAsWritten(urlText: string, urls: seq<string>): bool {
    IndexOfUrl(urls, Trim(urlText)).Some?
  }

  /** The record the clone handler is meant to work on: none for a blank URL, else the
      first record whose URL matches, or the one appended for it. */
  function ClonedIndex(urlText: string, urls: seq<string>): Option<nat> {
    var url := Trim(urlText);
    if url == "" then None
    else
      match IndexOfUrl(urls, url)
      case Some(i) => Some(i)
      case None => Some(|urls|)
  }

  /** The status a clone is meant to leave on its record. */
  function ClonedStatus(outcome: CloneOutcome): string {
    if outcome.CloneSucceeded? then StatusUpToDate else StatusError
  }

  /** As written, a blank but non-empty URL text makes the clone handler work on the last
      listed record, whose URL is not the text. */
  lemma {:induction false} AsWrittenClonesUnrelatedRecord(urlText: string, urls: seq<string>)
    requires urlText != "" && IsNullOrWhiteSpace(urlText)
    requires urls != [] && forall k :: 0 <= k < |urls| ==> urls[k] != ""
    ensures ClonedIndexAsWritten(urlText, urls) == Some(|urls| - 1)
    ensures !EqualsIgnoreCase(urls[|urls| - 1], Trim(urlText))
  {
    TrimEmptyIffBlank(urlText);
    EmptyUrlNeverFound(urls);
  }

  /** As written, a failed clone of a URL that was not yet listed leaves the appended
      record in the "Clonage..." status for good. */
  lemma {:induction false} AsWrittenFailedCloneStaysCloning(urlText: string, urls: seq<string>)
    requires !IsNullOrWhiteSpace(urlText)
    requires !ContainsUrl(urls, Trim(urlText))
    ensures ClonedIndexAsWritten(urlText, urls) == Some(|urls|)
    ensures CloneFinalStatus(CloneFailed, RefoundAsWritten(urlText, urls)) == StatusCloning
  {
    TrimEmptyIffBlank(urlText);
    ContainsIffIndexOfUrl(urls, Trim(urlText));
  }

  /** The intended clone works on a record whose URL is the trimmed text, the first
      one that matches or the one it appends because none matched, and leaves it "À jour" or
      "Erreur", never "Clonage...". */
  lemma {:induction false} ClonedRecordMatchesUrl(urlText: string, urls: seq<string>, outcome: CloneOutcome)
    ensures ClonedIndex(urlText, urls).None? <==> IsNullOrWhiteSpace(urlText)
    ensures ClonedIndex(urlText, urls).Some? ==>
      var i := ClonedIndex(urlText, urls).value;
      || (&& i < |urls| && EqualsIgnoreCase(urls[i], Trim(urlText))
          && forall k :: 0 <= k < i ==> !EqualsIgnoreCase(urls[k], Trim(urlText)))
      || (i == |urls| && !ContainsUrl(urls, Trim(urlText)))
    ensures ClonedStatus(outcome) != StatusCloning
  {
    TrimEmptyIffBlank(urlText);
    ContainsIffIndexOfUrl(urls, Trim(urlText));
    IndexOfUrlIsFirstMatch(urls, Trim(urlText));
  }

  /** The object initializer of the Add handler: a fresh record given its `Name`,
      `Url`, `LocalPath` and `Status`, in that order. */
  method CreateRecord(url: string, basePath: string) returns (repo: GitRepository)
    requires url != ""
    ensures fresh(repo)
    ensures repo.Fields() == NewRecord(url, basePath)
    ensures repo.statusHistory == [Some(StatusNotCloned)]
    ensures Listed(repo)
  {
    var name := GetFileNameWithoutExtension(url);
    repo := new GitRepository();
    repo.SetName(Some(name));
    repo.SetUrl(Some(url));
    repo.SetLocalPath(Some(Combine(basePath, name)));
    repo.SetStatus(Some(StatusNotCloned));
  }

  /** The main window's repository registry. `documentsFolder` stands for the user's
      documents folder as the environment reports it. */
  class MainWindow {
    var repositories: seq<GitRepository>
    var selectedRepository: GitRepository?
    var repoUrlText: string
    var baseDirectoryText: string
    const documentsFolder: string

    /** The records are distinct objects, each `Listed`, and their URLs are pairwise
        different ignoring case. */
    ghost predicate Valid()
      reads this, repositories
    {
      ValidList(repositories)
    }

    /** The listed URLs, in order. */
    ghost function Urls(): seq<string>
      reads this, repositories
    {
      UrlsOf(repositories)
    }

    /** The window starts with an empty list and the saved base path, or the default
        one when the saved path is blank. */
    constructor (savedBasePath: string, documentsFolder: string)
      ensures Valid()
      ensures repositories == [] && selectedRepository == null && repoUrlText == ""
      ensures this.documentsFolder == documentsFolder
      ensures baseDirectoryText == BaseRepositoryPath(savedBasePath, documentsFolder)
    {
      this.documentsFolder := documentsFolder;
      if !IsNullOrWhiteSpace(savedBasePath) {
        baseDirectoryText := savedBasePath;
      } else {
        baseDirectoryText := Combine(documentsFolder, DefaultFolderName);
      }
      repositories := [];
      selectedRepository := null;
      repoUrlText := "";
    }

    /** The user edits the URL box. */
    method SetRepoUrlText(text: string)
      requires Valid()
      modifies this
      ensures Valid()
      ensures repoUrlText == text
      ensures repositories == old(repositories) && selectedRepository == old(selectedRepository)
      ensures baseDirectoryText == old(baseDirectoryText)
    {
      repoUrlText := text;
    }

    /** The `BaseRepositoryPath` setter, which writes the base-directory box. */
    method SetBaseRepositoryPath(value: string)
      requires Valid()
      modifies this
      ensures Valid()
      ensures baseDirectoryText == value
      ensures repositories == old(repositories) && selectedRepository == old(selectedRepository)
      ensures repoUrlText == old(repoUrlText)
    {
      baseDirectoryText := value;
    }

    /** The `SelectedRepository` setter. */
    method SelectRepository(r: GitRepository?)
      requires Valid()
      modifies this
      ensures Valid()
      ensures selectedRepository == r
      ensures repositories == old(repositories)
      ensures repoUrlText == old(repoUrlText) && baseDirectoryText == old(baseDirectoryText)
    {
      selectedRepository := r;
    }

    /** `LoadRepositories`: nothing is read back yet; the list is emptied. */
    method LoadRepositories()
      requires Valid()
      modifies this
      ensures Valid()
      ensures repositories == []
      ensures selectedRepository == old(selectedRepository)
      ensures repoUrlText == old(repoUrlText) && baseDirectoryText == old(baseDirectoryText)
    {
      repositories := [];
    }

    /** `BtnAddRepo_Click`. A URL that is empty once trimmed, or that equals a listed
        URL ignoring case, is refused and nothing changes. Otherwise exactly one fresh
        record is appended, the earlier ones stay as they were, and the URL box is
        cleared. */
    method AddRepo() returns (result: AddResult)
      requires Valid()
      modifies this
      ensures Valid()
      ensures var url := Trim(old(repoUrlText));
        result == (if url == "" then EmptyUrl else if ContainsUrl(old(Urls()), url) then DuplicateUrl else Added)
      ensures result != Added ==> repositories == old(repositories) && repoUrlText == old(repoUrlText)
      ensures result == Added ==>
        && |repositories| == |old(repositories)| + 1
        && repositories[..|old(repositories)|] == old(repositories)
        && fresh(repositories[|old(repositories)|])
        && repositories[|old(repositories)|].Fields()
           == NewRecord(Trim(old(repoUrlText)), BaseRepositoryPath(old(baseDirectoryText), documentsFolder))
        && repositories[|old(repositories)|].statusHistory == [Some(StatusNotCloned)]
        && repoUrlText == ""
      ensures result == Added ==> Urls() == old(Urls()) + [Trim(old(repoUrlText))]
      ensures selectedRepository == old(selectedRepository) && baseDirectoryText == old(baseDirectoryText)
    {
      var url := Trim(repoUrlText);
      if url == "" {
        return EmptyUrl;
      }
      var urls := UrlsOf(repositories);
      if ContainsUrl(urls, url) {
        return DuplicateUrl;
      }
      var repo := CreateRecord(url, BaseRepositoryPath(baseDirectoryText, documentsFolder));
      var extended := repositories + [repo];
      AppendKeepsValid(repositories, repo);
      repositories := extended;
      repoUrlText := "";
      assert ValidList(extended);
      return Added;
    }

    /** `BtnRemove_Click`. Without a selection, or when the user does not confirm,
        nothing changes. Otherwise the selected record is taken out of the list (a
        no-op when it is not listed), the others keep their order, and no record's
        fields are touched. The cloned files stay on disk. */
    method RemoveSelected(confirmed: bool)
      requires Valid()
      modifies this
      ensures Valid()
      ensures repositories ==
        if old(selectedRepository) != null && confirmed
        then RemoveFirst<GitRepository>(old(repositories), old(selectedRepository))
        else old(repositories)
      ensures old(selectedRepository) != null && confirmed ==> old(selectedRepository) !in repositories
      ensures forall k :: 0 <= k < |old(repositories)| ==> unchanged(old(repositories)[k])
      ensures selectedRepository == old(selectedRepository)
      ensures repoUrlText == old(repoUrlText) && baseDirectoryText == old(baseDirectoryText)
    {
      if selectedRepository == null {
        return;
      }
      if confirmed {
        var repoToRemove: GitRepository := selectedRepository;
        var remaining := RemoveFirst(repositories, repoToRemove);
        RemoveKeepsValid(repositories, repoToRemove);
        repositories := remaining;
        assert ValidList(remaining);
      }
    }

    /** `repo.Status = status` on the listed record at `k`. */
    method SetStatusAt(k: nat, status: string)
      requires Valid()
      requires k < |repositories| && IsRepositoryStatus(status)
      modifies repositories[k]
      ensures Valid()
      ensures Urls() == old(Urls())
      ensures repositories[k].Fields() == old(repositories[k].Fields()).(status := Some(status))
      ensures repositories[k].statusHistory == old(repositories[k].statusHistory) + [Some(status)]
      ensures forall j :: 0 <= j < |repositories| && j != k ==> unchanged(repositories[j])
    {
      ghost var urls := UrlsOf(repositories);
      UrlsOfPointwise(repositories);
      repositories[k].SetStatus(Some(status));
      UrlsOfPointwise(repositories);
      assert UrlsOf(repositories) == urls;
    }

    /** The error handler of the clone: the record whose URL matches the trimmed text of
        the URL box, if any, becomes "Erreur"; `found` is its position. */
    method MarkCloneFailed() returns (found: Option<nat>)
      requires Valid()
      modifies repositories
      ensures Valid()
      ensures Urls() == old(Urls())
      ensures found == IndexOfUrl(Urls(), Trim(repoUrlText))
      ensures found.Some? ==>
        && repositories[found.value].Fields() == old(repositories[found.value].Fields()).(status := Some(StatusError))
        && repositories[found.value].statusHistory == old(repositories[found.value].statusHistory) + [Some(StatusError)]
      ensures forall k :: 0 <= k < |repositories| && found != Some(k) ==> unchanged(repositories[k])
    {
      found := IndexOfUrl(UrlsOf(repositories), Trim(repoUrlText));
      if found.Some? {
        SetStatusAt(found.value, StatusError);
      }
    }

    /** The lookup-or-add step of the clone handler as written: the first record whose
        URL matches the trimmed text; otherwise the Add handler runs and
        `Repositories.Last()` is taken, which is the appended record when the Add
        accepted the text, the last record already listed when it refused a blank text,
        and nothing (the call throws) when the list is empty. */
    method CloneTargetAsWritten() returns (index: Option<nat>)
      requires Valid()
      requires repoUrlText != ""
      modifies this
      ensures Valid()
      ensures selectedRepository == old(selectedRepository) && baseDirectoryText == old(baseDirectoryText)
      ensures index == ClonedIndexAsWritten(old(repoUrlText), old(Urls()))
      ensures index.Some? ==> index.value < |repositories|
      ensures index.Some? ==>
        IndexOfUrl(Urls(), Trim(repoUrlText))
        == (if RefoundAsWritten(old(repoUrlText), old(Urls())) then index else None)
      ensures index == Some(|old(repositories)|) ==>
        && |repositories| == |old(repositories)| + 1
        && repositories[..|old(repositories)|] == old(repositories)
        && fresh(repositories[|old(repositories)|])
        && repositories[|old(repositories)|].Fields()
           == NewRecord(Trim(old(repoUrlText)), BaseRepositoryPath(old(baseDirectoryText), documentsFolder))
        && repositories[|old(repositories)|].statusHistory == [Some(StatusNotCloned)]
        && repoUrlText == ""
      ensures index != Some(|old(repositories)|) ==>
        repositories == old(repositories) && repoUrlText == old(repoUrlText)
    {
      var url := Trim(repoUrlText);
      var urls := UrlsOf(repositories);
      var found := IndexOfUrl(urls, url);
      if found.Some? {
        return found;
      }
      ContainsIffIndexOfUrl(urls, url);
      var _ := AddRepo();
      if |repositories| == 0 {
        return None;
      }
      index := Some(|repositories| - 1);
      ListedUrlsNonEmpty(repositories);
      EmptyUrlNeverFound(UrlsOf(repositories));
    }

    /** The rest of the clone handler as written, on the record at `index`: it becomes
        "Clonage...", then "À jour" when the clone succeeds. When the clone fails, the
        error handler marks "Erreur" the record it finds again by the trimmed text of
        the URL box, which is the record at `index` when `refound` and none otherwise. */
    method FinishCloneAsWritten(index: nat, outcome: CloneOutcome, ghost refound: bool)
      requires Valid()
      requires index < |repositories|
      requires IndexOfUrl(Urls(), Trim(repoUrlText)) == if refound then Some(index) else None
      modifies repositories[index]
      ensures Valid()
      ensures Urls() == old(Urls())
      ensures repositories[index].statusHistory == old(repositories[index].statusHistory) + CloneStatuses(outcome, refound)
      ensures repositories[index].Fields() == old(repositories[index].Fields()).(status := Some(CloneFinalStatus(outcome, refound)))
      ensures forall k :: 0 <= k < |repositories| && k != index ==> unchanged(repositories[k])
    {
      SetStatusAt(index, StatusCloning);
      if outcome.CloneSucceeded? {
        SetStatusAt(index, StatusUpToDate);
      } else {
        var found := IndexOfUrl(UrlsOf(repositories), Trim(repoUrlText));
        if found.Some? {
          SetStatusAt(found.value, StatusError);
        }
      }
    }

    /** `BtnCloneRepo_Click` as written (see `CloneRepo` for the intended behaviour).
        `cloned` is the position of the record it worked on; every other record is
        left as it was. */
    method CloneRepoAsWritten(outcome: CloneOutcome) returns (cloned: Option<nat>)
      requires Valid()
      modifies this, repositories
      ensures Valid()
      ensures selectedRepository == old(selectedRepository) && baseDirectoryText == old(baseDirectoryText)
      ensures cloned == ClonedIndexAsWritten(old(repoUrlText), old(Urls()))
      ensures repoUrlText == if cloned == Some(|old(repositories)|) then "" else old(repoUrlText)
      ensures |repositories| == |old(repositories)| + (if cloned == Some(|old(repositories)|) then 1 else 0)
      ensures repositories[..|old(repositories)|] == old(repositories)
      ensures cloned.Some? ==>
        && cloned.value < |repositories|
        && repositories[cloned.value].status
           == Some(CloneFinalStatus(outcome, RefoundAsWritten(old(repoUrlText), old(Urls()))))
      ensures cloned == Some(|old(repositories)|) ==> fresh(repositories[|old(repositories)|])
      ensures cloned.Some? && cloned.value < |old(repositories)| ==>
        var r := repositories[cloned.value];
        && r.Fields() == old(r.Fields()).(status := Some(CloneFinalStatus(outcome, RefoundAsWritten(old(repoUrlText), old(Urls())))))
        && r.statusHistory == old(r.statusHistory) + CloneStatuses(outcome, RefoundAsWritten(old(repoUrlText), old(Urls())))
      ensures forall k :: 0 <= k < |old(repositories)| && cloned != Some(k) ==> unchanged(old(repositories)[k])
    {
      if repoUrlText == "" {
        return None;
      }
      ghost var urls := Urls();
      ghost var text := repoUrlText;
      var target := CloneTargetAsWritten();
      if target.None? {
        var _ := MarkCloneFailed();
        return None;
      }
      FinishCloneAsWritten(target.value, outcome, RefoundAsWritten(text, urls));
      cloned := target;
    }

    /** The lookup-or-add step of the clone handler as intended: nothing for a URL that
        is blank once trimmed; otherwise the first record whose URL matches the trimmed
        text, or the record the Add handler appends for it. */
    method CloneTarget() returns (index: Option<nat>)
      requires Valid()
      modifies this
      ensures Valid()
      ensures selectedRepository == old(selectedRepository) && baseDirectoryText == old(baseDirectoryText)
      ensures index == ClonedIndex(old(repoUrlText), old(Urls()))
      ensures repoUrlText == if index == Some(|old(repositories)|) then "" else old(repoUrlText)
      ensures index.Some? ==> index.value < |repositories|
      ensures |repositories| == |old(repositories)| + (if index == Some(|old(repositories)|) then 1 else 0)
      ensures repositories[..|old(repositories)|] == old(repositories)
      ensures index == Some(|old(repositories)|) ==>
        && fresh(repositories[|old(repositories)|])
        && repositories[|old(repositories)|].Fields()
           == NewRecord(Trim(old(repoUrlText)), BaseRepositoryPath(old(baseDirectoryText), documentsFolder))
        && repositories[|old(repositories)|].statusHistory == [Some(StatusNotCloned)]
    {
      var url := Trim(repoUrlText);
      if url == "" {
        return None;
      }
      var urls := UrlsOf(repositories);
      var found := IndexOfUrl(urls, url);
      if found.Some? {
        return found;
      }
      ContainsIffIndexOfUrl(urls, url);
      var _ := AddRepo();
      index := Some(|repositories| - 1);
    }

    /** The rest of the clone handler as intended, on the record at `index`: it becomes
        "Clonage...", then "À jour" or "Erreur" as the clone succeeds or fails. Only
        its status changes. */
    method FinishClone(index: nat, outcome: CloneOutcome)
      requires Valid()
      requires index < |repositories|
      modifies repositories[index]
      ensures Valid()
      ensures Urls() == old(Urls())
      ensures repositories[index].statusHistory
        == old(repositories[index].statusHistory) + [Some(StatusCloning), Some(ClonedStatus(outcome))]
      ensures repositories[index].Fields() == old(repositories[index].Fields()).(status := Some(ClonedStatus(outcome)))
      ensures forall k :: 0 <= k < |repositories| && k != index ==> unchanged(repositories[k])
    {
      SetStatusAt(index, StatusCloning);
      if outcome.CloneSucceeded? {
        SetStatusAt(index, StatusUpToDate);
      } else {
        SetStatusAt(index, StatusError);
      }
    }

    /** `BtnCloneRepo_Click` as intended. `cloned` is the position of the record it
        worked on: a listed record whose URL matches the trimmed text, or one appended
        for that URL. That record ends "À jour" or "Erreur"; nothing else about it, and
        no other record, changes. */
    method CloneRepo(outcome: CloneOutcome) returns (cloned: Option<nat>)
      requires Valid()
      modifies this, repositories
      ensures Valid()
      ensures selectedRepository == old(selectedRepository) && baseDirectoryText == old(baseDirectoryText)
      ensures cloned == ClonedIndex(old(repoUrlText), old(Urls()))
      ensures repoUrlText == if cloned == Some(|old(repositories)|) then "" else old(repoUrlText)
      ensures |repositories| == |old(repositories)| + (if cloned == Some(|old(repositories)|) then 1 else 0)
      ensures repositories[..|old(repositories)|] == old(repositories)
      ensures cloned.Some? ==>
        cloned.value < |repositories| && repositories[cloned.value].status == Some(ClonedStatus(outcome))
      ensures cloned.Some? && cloned.value < |old(repositories)| ==>
        var r := repositories[cloned.value];
        && r.Fields() == old(r.Fields()).(status := Some(ClonedStatus(outcome)))
        && r.statusHistory == old(r.statusHistory) + [Some(StatusCloning), Some(ClonedStatus(outcome))]
      ensures cloned == Some(|old(repositories)|) ==>
        var r := repositories[cloned.value];
        && fresh(r)
        && r.Fields()
           == NewRecord(Trim(old(repoUrlText)), BaseRepositoryPath(old(baseDirectoryText), documentsFolder))
              .(status := Some(ClonedStatus(outcome)))
        && r.statusHistory == [Some(StatusNotCloned), Some(StatusCloning), Some(ClonedStatus(outcome))]
      ensures forall k :: 0 <= k < |old(repositories)| && cloned != Some(k) ==> unchanged(old(repositories)[k])
    {
      var target := CloneTarget();
      if target.None? {
        return None;
      }
      FinishClone(target.value, outcome);
      cloned := target;
    }

    /** `BtnPull_Click`. Without a selection nothing changes. Otherwise the selected
        record becomes "Mise à jour..."; when the pull fails it then becomes "Erreur"
        and keeps its branch and last commit; when it succeeds it becomes "À jour"
        whether or not the merge had anything to do, its branch is the head's name and
        its last commit the tip's short message, or "Aucun commit" without a tip. Its
        name, URL and working copy never change. */
    method Pull(outcome: PullOutcome)
      requires Valid()
      modifies selectedRepository
      ensures Valid()
      ensures Urls() == old(Urls())
      ensures selectedRepository != null ==>
        var r := selectedRepository;
        && r.name == old(r.name) && r.url == old(r.url) && r.localPath == old(r.localPath)
        && r.status == Some(if outcome.PullFailed? then StatusError else StatusUpToDate)
        && (outcome.PullFailed? ==> r.branch == old(r.branch) && r.lastCommit == old(r.lastCommit))
        && (outcome.PullSucceeded? ==>
             && r.branch == Some(outcome.headName)
             && r.lastCommit == Some(outcome.tipMessage.GetOr(NoCommitMessage)))
        && r.statusHistory == old(r.statusHistory) + [Some(StatusUpdating), r.status]
    {
      if selectedRepository == null {
        return;
      }
      var repo := selectedRepository;
      ghost var urls := UrlsOf(repositories);
      UrlsOfPointwise(repositories);
      repo.SetStatus(Some(StatusUpdating));
      match outcome {
        case PullFailed =>
          repo.SetStatus(Some(StatusError));
        case PullSucceeded(alreadyUpToDate, headName, tipMessage) =>
          if alreadyUpToDate {
            repo.SetStatus(Some(StatusUpToDate));
          } else {
            repo.SetStatus(Some(StatusUpToDate));
          }
          repo.SetBranch(Some(headName));
          repo.SetLastCommit(Some(tipMessage.GetOr(NoCommitMessage)));
      }
      UrlsOfPointwise(repositories);
      assert UrlsOf(repositories) == urls;
    }
  }
}
