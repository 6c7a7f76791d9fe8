// The filesystem as the cleaner sees it: the directory to clean, its
// immediate children, the iterator over a listing of them, and recursive
// delete. Each call that can throw an `IOException` returns a `Result`;
// which call throws is fixed by the filesystem's `fault`.
module FileSystems {
  import opened Entries
  import opened Sweeps

  /** An iterator over one listing (a `RemoteIterator` of file statuses).
      Its `hasNext` throws once `after` entries have been handed out when the
      filesystem's fault is `IterationFails(after)`. */
  class EntryIterator {
    const items: seq<Entry>
    const fault: Fault
    var pos: nat

    constructor (items: seq<Entry>, fault: Fault)
      ensures this.items == items && this.fault == fault && pos == 0
    {
      this.items := items;
      this.fault := fault;
      pos := 0;
    }

    method HasNext() returns (r: Result<bool>)
      ensures r == if fault == IterationFails(pos) then IOException else Ok(pos < |items|)
    {
      if fault == IterationFails(pos) {
        r := IOException;
      } else {
        r := Ok(pos < |items|);
      }
    }

    method Next() returns (e: Entry)
      requires pos < |items|
      modifies this
      ensures e == items[old(pos)] && pos == old(pos) + 1
    {
      e := items[pos];
      pos := pos + 1;
    }
  }

  /** The directory to clean: whether it exists, its children in listing
      order, the call (if any) that throws, the paths whose recursive delete
      returns false and removes nothing, and a log of the delete calls that
      returned. */
  class FileSystem {
    const present: bool
    var children: seq<Entry>
    const fault: Fault
    const undeletable: set<string>
    ghost var deletions: seq<Deletion>

    constructor (present: bool, children: seq<Entry>, fault: Fault, undeletable: set<string>)
      ensures this.present == present && this.children == children && this.fault == fault
      ensures this.undeletable == undeletable && deletions == []
    {
      this.present := present;
      this.children := children;
      this.fault := fault;
      this.undeletable := undeletable;
      deletions := [];
    }

    /** `exists(dirToClean)`. */
    method Exists() returns (r: Result<bool>)
      ensures r == if fault == ExistsFails then IOException else Ok(present)
    {
      if fault == ExistsFails {
        r := IOException;
      } else {
        r := Ok(present);
      }
    }

    /** `listLocatedStatus(dirToClean)`: a fresh iterator over the children,
        or an `IOException` (also the `FileNotFoundException` of a directory
        that is absent). */
    method ListLocatedStatus() returns (r: Result<EntryIterator>)
      ensures r.IOException? <==> fault == ListingFails || !present
      ensures r.Ok? ==>
                && fresh(r.value) && r.value.items == children
                && r.value.fault == fault && r.value.pos == 0
    {
      if fault == ListingFails || !present {
        r := IOException;
      } else {
        var itor := new EntryIterator(children, fault);
        r := Ok(itor);
      }
    }

    /** `delete(path, recursive)`: throws and changes nothing; or returns
        false and removes nothing when the path is undeletable; or removes
        every child with that path and reports whether there was one. */
    method Delete(path: string, recursive: bool) returns (r: Result<bool>)
      modifies this
      ensures fault == DeleteFails(path) ==>
                r == IOException && children == old(children) && deletions == old(deletions)
      ensures fault != DeleteFails(path) ==>
                && r == Ok(path !in undeletable && path in PathSet(old(children)))
                && children == Keep(old(children), {path} - undeletable)
                && deletions == old(deletions) + [Deletion(path, recursive)]
    {
      if fault == DeleteFails(path) {
        r := IOException;
      } else if path in undeletable {
        r := Ok(false);
        KeepNothing(children);
        assert {path} - undeletable == {};
        deletions := deletions + [Deletion(path, recursive)];
      } else {
        r := Ok(path in PathSet(children));
        assert {path} - undeletable == {path};
        children := Keep(children, {path});
        deletions := deletions + [Deletion(path, recursive)];
      }
    }
  }
}
