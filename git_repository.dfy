/** The record of one tracked repository: six string properties, each a getter and a
    setter over its own backing field, all `null` until assigned. */
module Models {
  import opened Wrappers

  /** The values of the six properties of a record at one moment; `None` is `null`. */
  datatype RepositoryFields = RepositoryFields(
    name: Option<string>,
    url: Option<string>,
    localPath: Option<string>,
    branch: Option<string>,
    lastCommit: Option<string>,
    status: Option<string>)

  const UnsetFields := RepositoryFields(None, None, None, None, None, None)

  /** A record whose backing fields are read by the getters and overwritten by the
      setters. `statusHistory` lists every value given to `Status`, in order: what an
      observer of its change notifications sees. */
  class GitRepository {
    var name: Option<string>
    var url: Option<string>
    var localPath: Option<string>
    var branch: Option<string>
    var lastCommit: Option<string>
    var status: Option<string>
    ghost var statusHistory: seq<Option<string>>

    /** The class has no constructor logic: every field starts out `null`. */
    constructor ()
      ensures Fields() == UnsetFields
      ensures statusHistory == []
    {
      name, url, localPath := None, None, None;
      branch, lastCommit, status := None, None, None;
      statusHistory := [];
    }

    /** The six getters read together. */
    function Fields(): RepositoryFields
      reads this
    {
      RepositoryFields(name, url, localPath, branch, lastCommit, status)
    }

    method SetName(value: Option<string>)
      modifies this
      ensures name == value
      ensures Fields() == old(Fields()).(name := value)
      ensures statusHistory == old(statusHistory)
    {
      name := value;
    }

    method SetUrl(value: Option<string>)
      modifies this
      ensures url == value
      ensures Fields() == old(Fields()).(url := value)
      ensures statusHistory == old(statusHistory)
    {
      url := value;
    }

    method SetLocalPath(value: Option<string>)
      modifies this
      ensures localPath == value
      ensures Fields() == old(Fields()).(localPath := value)
      ensures statusHistory == old(statusHistory)
    {
      localPath := value;
    }

    method SetBranch(value: Option<string>)
      modifies this
      ensures branch == value
      ensures Fields() == old(Fields()).(branch := value)
      ensures statusHistory == old(statusHistory)
    {
      branch := value;
    }

    method SetLastCommit(value: Option<string>)
      modifies this
      ensures lastCommit == value
      ensures Fields() == old(Fields()).(lastCommit := value)
      ensures statusHistory == old(statusHistory)
    {
      lastCommit := value;
    }

    method SetStatus(value: Option<string>)
      modifies this
      ensures status == value
      ensures Fields() == old(Fields()).(status := value)
      ensures statusHistory == old(statusHistory) + [value]
    {
      status := value;
      statusHistory := statusHistory + [value];
    }
  }
}
