/** The remote snapshot directory as the agent sees it: a listing of entry
    names. Transport, authentication and file contents are not modelled;
    whether a call fails is decided by the caller's environment parameters. */
module Remote {
  import opened Seqs

  /** One request the agent sends: `client.list()`, the HTTP download,
      `client.upload_sync(...)` or `client.clean(...)`. */
  datatype Call = List | Get(name: string) | Put(name: string) | Clean(name: string)

  /** A successful upload: afterwards the entry exists, and an entry that
      already had the name is overwritten rather than duplicated. */
  function Upload(dir: seq<string>, name: string): (d: seq<string>)
    ensures forall x :: x in d <==> x in dir || x == name
    ensures forall x :: x != name ==> multiset(d)[x] == multiset(dir)[x]
    ensures NoDup(dir) ==> NoDup(d)
  {
    if name in dir then dir else dir + [name]
  }

  /** A successful delete: the entry is gone and nothing else changes. */
  function Remove(dir: seq<string>, name: string): (d: seq<string>)
    ensures forall x :: multiset(d)[x] == if x == name then 0 else multiset(dir)[x]
    ensures forall x :: x in d <==> x in dir && x != name
    ensures NoDup(dir) ==> NoDup(d)
  {
    FilterNoDup(dir, x => x != name);
    Filter(dir, x => x != name)
  }
}
