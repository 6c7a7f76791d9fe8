// Values the cleaner exchanges with the filesystem.
module Entries {

  /** One immediate child of the directory being cleaned, as the listing
      reports it: the path string of its URI, whether it is a directory, and
      its modification time in milliseconds. */
  datatype Entry = Entry(path: string, isDir: bool, modTime: int)

  /** The filesystem call, if any, that throws an `IOException` during a
      sweep. Only the first exception matters, since it ends the sweep.
      `IterationFails(n)` fails the iterator once `n` entries have been
      handed out; `DeleteFails(p)` fails every delete of path `p`. */
  datatype Fault =
    | NoFault
    | ExistsFails
    | ListingFails
    | IterationFails(after: nat)
    | DeleteFails(path: string)

  /** One call of `delete(path, recursive)` that returned normally. */
  datatype Deletion = Deletion(path: string, recursive: bool)

  /** The outcome of a filesystem call that may throw an `IOException`. */
  datatype Result<T> = Ok(value: T) | IOException
}
