# ExpireUnusedJobFiles: a verified model of the job-file cleaner

`ExpireUnusedJobFiles` is a `Runnable` from the MapReduce code of Hadoop. It
runs periodically and deletes old job directories under one directory. Each
sweep (`run()`) reads the clock once and returns when the directory does not
exist. Otherwise it walks a listing of the immediate children, in listing
order. A child is deleted recursively when three things hold:

- it is a directory;
- the configured pattern is found somewhere in its URI path;
- its age, the clock reading minus its modification time, is strictly
  greater than `cleanThreshold`.

An `IOException` from any filesystem call is caught outside the loop, so it
ends the sweep.

The model has four modules:

- `Entries`: the values exchanged with the filesystem. These are a listed
  child (`Entry`), the call that throws (`Fault`), a logged delete call
  (`Deletion`) and `Result`, which stands for "returned or threw
  `IOException`".
- `Patterns`: unanchored search of the pattern in a path (`Occurs`).
- `Sweeps`: the specification. `Selected` is the eligible children in
  listing order. `Swept` is what one sweep deletes for a given fault.
  `Keep` is what remains. The lemmas state the properties of a sweep. The
  predicates `Progress` and `Finished` relate the loop's state to these
  functions.
- `FileSystems`: the filesystem as the cleaner sees it. It is a class with
  the directory's existence, its children, a fault, the paths whose
  recursive delete returns false without removing anything, and a ghost log
  of the delete calls that returned. The listing's `RemoteIterator` is also a
  class.
- `Expirer`: the class `ExpireUnusedJobFiles` with its six final fields and
  the sweep as imperative methods.
  - `Run` is `run()`.
  - `DeleteExpired` is its `for` loop.
  - `Advance` is one turn of that loop.
  - `Examine` is the loop body for one child.

  `Run` is proved against `Swept`: the delete log grows by exactly the
  recursive deletions of `Swept`, in order. The children left are exactly
  those whose paths were not deleted, or whose delete returned false.

A delete that throws ends the sweep, because the `try` of line 91 encloses
the loop and the `catch` is at line 115; later children are not examined.
`Reached` stops the loop at the first eligible child whose delete throws. A
delete that returns false does not end the sweep, since line 111 ignores the
boolean: the loop goes on to the next child and the directory stays.

## Model

| member | source | states |
|---|---|---|
| Patterns.Occurs | src/mapred/org/apache/hadoop/mapred/ExpireUnusedJobFiles.java:104-107 | the pattern is found in the path exactly when it occurs at some index of it |
| Patterns.FoundAnywhere | src/mapred/org/apache/hadoop/mapred/ExpireUnusedJobFiles.java:106-107 | the search is unanchored: it succeeds exactly when the path is some text, then the pattern, then some text |
| Sweeps.Selected | src/mapred/org/apache/hadoop/mapred/ExpireUnusedJobFiles.java:98-113 | a child is among the selected ones exactly when it is listed and is an eligible directory; there are never more of them than children |
| Sweeps.FailingDeleteIndex | src/mapred/org/apache/hadoop/mapred/ExpireUnusedJobFiles.java:107-111 | the index of the first child whose delete throws is an eligible child with the failing path, and no earlier eligible child has that path |
| Sweeps.Keep | src/mapred/org/apache/hadoop/mapred/ExpireUnusedJobFiles.java:111 | after the deletes, a child remains exactly when it was there and its path was not deleted |
| Sweeps.SelectedAppend | src/mapred/org/apache/hadoop/mapred/ExpireUnusedJobFiles.java:98-99 | selection keeps listing order: selecting from a concatenation concatenates the selections |
| Sweeps.SelectedStep | src/mapred/org/apache/hadoop/mapred/ExpireUnusedJobFiles.java:99-113 | examining one more child adds it to what is deleted exactly when it is eligible |
| Sweeps.SelectedNone | src/mapred/org/apache/hadoop/mapred/ExpireUnusedJobFiles.java:101-113 | if no child is eligible, nothing is deleted |
| Sweeps.KeepNothing | src/mapred/org/apache/hadoop/mapred/ExpireUnusedJobFiles.java:93-95 | deleting no path leaves the children unchanged |
| Sweeps.KeepTwice | src/mapred/org/apache/hadoop/mapred/ExpireUnusedJobFiles.java:111 | deleting one set of paths and then another is deleting their union |
| Sweeps.DeletionStep | src/mapred/org/apache/hadoop/mapred/ExpireUnusedJobFiles.java:109-111 | one more recursive delete adds one log entry with `recursive = true` and removes that path from the children, unless its delete removes nothing |
| Sweeps.NeverSwept | src/mapred/org/apache/hadoop/mapred/ExpireUnusedJobFiles.java:101-108 | whatever the fault, a file, a directory whose path does not contain the pattern, and a directory whose age is at most the threshold (equality included) are never deleted; only listed children are |
| Sweeps.SweptComplete | src/mapred/org/apache/hadoop/mapred/ExpireUnusedJobFiles.java:98-114 | without an exception, the deletions are exactly the eligible children in listing order |
| Sweeps.SweptIsPrefix | src/mapred/org/apache/hadoop/mapred/ExpireUnusedJobFiles.java:91-117 | whatever the fault, the deletions are a prefix of those of a sweep without exception |
| Sweeps.DeleteFailureEndsSweep | src/mapred/org/apache/hadoop/mapred/ExpireUnusedJobFiles.java:111-117 | when the delete of child `k` throws, the sweep deletes what a sweep of the first `k` children deletes and nothing from child `k` on |
| Sweeps.FailedPathNotDeleted | src/mapred/org/apache/hadoop/mapred/ExpireUnusedJobFiles.java:111-117 | the path whose delete throws is never among the deletions |
| Sweeps.UnexaminedIgnored | src/mapred/org/apache/hadoop/mapred/ExpireUnusedJobFiles.java:98-99 | children listed after the point where an exception ends the loop do not change what is deleted |
| Sweeps.Idempotent | src/mapred/org/apache/hadoop/mapred/ExpireUnusedJobFiles.java:98-114 | a second sweep of the remaining children, with the same rule and a clock that has not advanced, only retries children whose delete returned false and left them in place; when every delete removes its directory, it deletes nothing |
| Sweeps.OneHourExample | src/mapred/org/apache/hadoop/mapred/ExpireUnusedJobFiles.java:101-111 | with a one-hour threshold, a two-hour-old job directory is deleted, while a thirty-minute-old one and an old plain file are kept |
| Sweeps.ProgressStart | src/mapred/org/apache/hadoop/mapred/ExpireUnusedJobFiles.java:98 | before the loop, no child is handled and nothing is deleted |
| Sweeps.ProgressStep | src/mapred/org/apache/hadoop/mapred/ExpireUnusedJobFiles.java:98-113 | a turn of the loop that does not throw keeps the loop's state equal to the selection of the children handled so far |
| Sweeps.ProgressEnd | src/mapred/org/apache/hadoop/mapred/ExpireUnusedJobFiles.java:98-115 | when the listing is exhausted or the iterator or a delete throws, the log and the children are those of the sweep's selection |
| Sweeps.ReclaimedStopsAt | src/mapred/org/apache/hadoop/mapred/ExpireUnusedJobFiles.java:98-115 | each of the three ways the loop stops after `k` children deletes the eligible ones among those `k` |
| FileSystems.EntryIterator.HasNext | src/mapred/org/apache/hadoop/mapred/ExpireUnusedJobFiles.java:98 | tells whether children remain, or throws at the configured point |
| FileSystems.EntryIterator.Next | src/mapred/org/apache/hadoop/mapred/ExpireUnusedJobFiles.java:99 | hands out the next child in listing order |
| FileSystems.FileSystem.Exists | src/mapred/org/apache/hadoop/mapred/ExpireUnusedJobFiles.java:93 | tells whether the directory exists, or throws |
| FileSystems.FileSystem.ListLocatedStatus | src/mapred/org/apache/hadoop/mapred/ExpireUnusedJobFiles.java:98 | a fresh iterator over the children in listing order; throws when the listing fails or the directory is absent |
| FileSystems.FileSystem.Delete | src/mapred/org/apache/hadoop/mapred/ExpireUnusedJobFiles.java:111 | either throws and changes nothing; or logs the call, returns false and removes nothing for an undeletable path; or logs the call, removes every child with that path and reports whether there was one |
| Expirer.Clock.GetTime | src/mapred/org/apache/hadoop/mapred/ExpireUnusedJobFiles.java:90 | reads the clock without changing it |
| Expirer.ExpireUnusedJobFiles.constructor | src/mapred/org/apache/hadoop/mapred/ExpireUnusedJobFiles.java:65-80 | the six fields hold the given configuration; a positive period is required, as `scheduleAtFixedRate` demands |
| Expirer.ExpireUnusedJobFiles.Run | src/mapred/org/apache/hadoop/mapred/ExpireUnusedJobFiles.java:89-118 | one sweep logs exactly the recursive deletes of `Swept` for the clock reading taken at the start, in order. The children left are those whose paths were not deleted or whose delete returned false. Nothing changes when the directory is absent. No exception escapes |
| Expirer.ExpireUnusedJobFiles.DeleteExpired | src/mapred/org/apache/hadoop/mapred/ExpireUnusedJobFiles.java:97-114 | the loop over a fresh listing deletes exactly `Reclaimed`, the eligible children before the failure point, all compared with the same clock reading, and a delete that returns false does not stop it |
| Expirer.ExpireUnusedJobFiles.Advance | src/mapred/org/apache/hadoop/mapred/ExpireUnusedJobFiles.java:98-113 | one turn of the loop either ends the sweep with the final deletions, or handles one more child and keeps the loop's relation to the selection |
| Expirer.ExpireUnusedJobFiles.Examine | src/mapred/org/apache/hadoop/mapred/ExpireUnusedJobFiles.java:99-113 | an eligible child is deleted recursively, any other child is left alone, and the turn fails exactly when the delete of an eligible child throws |

## Left out

- Scheduling: the thread pool and `scheduleAtFixedRate` (lines 76-80) are threads and timers. The model covers one call of `run()`. The constructor only requires the positive period that scheduling needs.
- Logging: the `LOG.info` and `LOG.error` calls (lines 82-85, 92, 110, 116) are output only.
- Regular expressions: a literal pattern searched as a substring (`Patterns.Occurs`) stands in for `Pattern.matcher(...).find()`. The unanchored "found anywhere" behaviour is kept. Regex syntax is not modelled.
- Hadoop filesystem internals: `FileSystem`, `RemoteIterator`, `LocatedFileStatus` and `Path.toUri().getPath()` are not part of this model. The filesystem is the view of the one directory being cleaned, and each child carries its URI path string. A recursive delete either removes the children with that path or, for a path the filesystem cannot delete, returns false and removes nothing. A delete that throws is modelled as having no effect.
- Faults: the filesystem has at most one failing call per sweep. Only the first `IOException` matters, because it ends the sweep.
- A directory removed between `exists` and `listLocatedStatus` is not modelled beyond the listing throwing when the directory is absent.
- FileSystems.FileSystem.Delete: a recursive delete that removes part of a directory tree before it throws or returns false is not modelled. The directory is either removed whole or left whole.
- Java `long` arithmetic: ages and thresholds are unbounded integers, so an overflow in `currentTime - modTime` is not modelled.
- The clock is an object the sweep reads once. Nothing in the sweep changes it.
