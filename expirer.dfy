// The periodic cleaner: immutable configuration fixed by the constructor,
// and one sweep over the immediate children of the directory to clean.
module Expirer {
  import opened Entries
  import opened Patterns
  import opened Sweeps
  import opened FileSystems

  /** The time source; the sweep only reads it. */
  class Clock {
    var time: int

    constructor (time: int)
      ensures this.time == time
    {
      this.time := time;
    }

    method GetTime() returns (t: int)
      ensures t == time
    {
      t := time;
    }
  }

  /** Deletes the subdirectories of `dirToClean` whose path contains
      `fileToCleanPattern` and that were last modified more than
      `cleanThreshold` milliseconds ago. `fs` is the filesystem as seen from
      `dirToClean`. */
  class ExpireUnusedJobFiles {
    const clock: Clock
    const fs: FileSystem
    const dirToClean: string
    const cleanThreshold: int
    const cleanInterval: int
    const fileToCleanPattern: string

    /** Copies the configuration. Scheduling the sweep every `cleanInterval`
        milliseconds rejects a period that is not positive. */
    constructor (clock: Clock, fs: FileSystem, dirToClean: string, fileToCleanPattern: string,
                 cleanThreshold: int, cleanInterval: int)
      requires cleanInterval > 0
      ensures this.clock == clock && this.fs == fs && this.dirToClean == dirToClean
      ensures this.fileToCleanPattern == fileToCleanPattern
      ensures this.cleanThreshold == cleanThreshold && this.cleanInterval == cleanInterval
    {
      this.clock := clock;
      this.fs := fs;
      this.dirToClean := dirToClean;
      this.fileToCleanPattern := fileToCleanPattern;
      this.cleanThreshold := cleanThreshold;
      this.cleanInterval := cleanInterval;
    }

    /** The rule a sweep applies when the clock reads `now`. */
    function RuleAt(now: int): Rule
    {
      Rule(fileToCleanPattern, cleanThreshold, now)
    }

    /** One sweep. The clock is read once, before any filesystem call. Any
        `IOException` ends the sweep and is not propagated. The delete calls
        made are exactly `Swept` of the filesystem as it was, in order, each
        one recursive, and the children left are the ones whose paths were
        not deleted or whose delete removed nothing. */
    method Run()
      modifies fs
      ensures fs.deletions
           == old(fs.deletions) + RecursiveDeletions(Swept(fs.present, old(fs.children), fs.fault, RuleAt(clock.time)))
      ensures fs.children
           == Keep(old(fs.children),
                   PathSet(Swept(fs.present, old(fs.children), fs.fault, RuleAt(clock.time))) - fs.undeletable)
      ensures !fs.present ==> fs.children == old(fs.children) && fs.deletions == old(fs.deletions)
    {
      var currentTime := clock.GetTime();
      ghost var none: seq<Entry> := [];
      KeepNothing(fs.children);
      assert PathSet(none) - fs.undeletable == {} && RecursiveDeletions(none) == [];
      assert fs.deletions == old(fs.deletions) + RecursiveDeletions(none);

      var dirExists := fs.Exists();
      if dirExists.IOException? || !dirExists.value {
        return;
      }
      var listed := fs.ListLocatedStatus();
      if listed.IOException? {
        return;
      }
      DeleteExpired(listed.value, currentTime);
    }

    /** The loop of a sweep over a fresh listing of the children, comparing
        every child with the one clock reading `currentTime`. It stops at the
        first `IOException` (which the sweep catches) or at the end of the
        listing, having deleted the eligible children it reached. */
    method DeleteExpired(itor: EntryIterator, currentTime: int)
      requires itor.items == fs.children && itor.fault == fs.fault && itor.pos == 0
      modifies fs, itor
      ensures fs.deletions
           == old(fs.deletions) + RecursiveDeletions(Reclaimed(old(fs.children), fs.fault, RuleAt(currentTime)))
      ensures fs.children
           == Keep(old(fs.children), PathSet(Reclaimed(old(fs.children), fs.fault, RuleAt(currentTime))) - fs.undeletable)
    {
      ghost var listing, log0, cs0 := fs.children, fs.deletions, fs.children;
      ghost var done: seq<Entry> := [];
      ProgressStart(listing, fs.fault, RuleAt(currentTime), fs.undeletable, log0, cs0);
      var stopped := false;
      while !stopped
        invariant itor.items == listing && itor.fault == fs.fault && itor.pos <= |listing|
        invariant !stopped ==> Progress(listing, fs.fault, RuleAt(currentTime), fs.undeletable, itor.pos, done,
                                        log0, fs.deletions, cs0, fs.children)
        invariant stopped ==> Finished(listing, fs.fault, RuleAt(currentTime), fs.undeletable,
                                       log0, fs.deletions, cs0, fs.children)
        decreases |listing| - itor.pos, if stopped then 0 else 1
      {
        stopped, done := Advance(itor, currentTime, listing, done, log0, cs0);
      }
    }

    /** One turn of the loop of a sweep: ask the iterator whether there is a
        next child, take it and examine it. Reports whether the sweep has
        ended, at the end of the listing or at an `IOException`. */
    method Advance(itor: EntryIterator, currentTime: int, ghost listing: seq<Entry>, ghost done: seq<Entry>,
                   ghost log0: seq<Deletion>, ghost cs0: seq<Entry>)
        returns (stopped: bool, ghost done': seq<Entry>)
      requires itor.items == listing && itor.fault == fs.fault
      requires Progress(listing, fs.fault, RuleAt(currentTime), fs.undeletable, itor.pos, done,
                        log0, fs.deletions, cs0, fs.children)
      modifies fs, itor
      ensures if stopped then old(itor.pos) <= itor.pos <= |listing| else itor.pos == old(itor.pos) + 1
      ensures stopped ==> Finished(listing, fs.fault, RuleAt(currentTime), fs.undeletable,
                                   log0, fs.deletions, cs0, fs.children)
      ensures !stopped ==> Progress(listing, fs.fault, RuleAt(currentTime), fs.undeletable, itor.pos, done',
                                    log0, fs.deletions, cs0, fs.children)
    {
      var more := itor.HasNext();
      if more.IOException? || !more.value {
        ProgressEnd(listing, fs.fault, RuleAt(currentTime), fs.undeletable, itor.pos, done,
                    log0, fs.deletions, cs0, fs.children);
        return true, done;
      }
      ghost var k := itor.pos;
      ghost var log, cs := fs.deletions, fs.children;
      var dirStat := itor.Next();
      var completed := Examine(dirStat, currentTime);
      if !completed {
        ProgressEnd(listing, fs.fault, RuleAt(currentTime), fs.undeletable, k, done, log0, log, cs0, cs);
        return true, done;
      }
      ProgressStep(listing, fs.fault, RuleAt(currentTime), fs.undeletable, k, done, log0, log, cs0, cs,
                   fs.deletions, fs.children);
      stopped, done' := false, if Eligible(listing[k], RuleAt(currentTime)) then done + [listing[k]] else done;
    }

    /** The body of the loop of a sweep for one child: delete it
        recursively when it is a directory whose path contains the pattern
        and whose age exceeds the threshold; skip it otherwise. Returns false
        when the delete throws, which ends the sweep. */
    method Examine(dirStat: Entry, currentTime: int) returns (completed: bool)
      modifies fs
      ensures completed <==> !(Eligible(dirStat, RuleAt(currentTime)) && fs.fault == DeleteFails(dirStat.path))
      ensures if Eligible(dirStat, RuleAt(currentTime)) && completed
              then fs.deletions == old(fs.deletions) + [Deletion(dirStat.path, true)]
                && fs.children == Keep(old(fs.children), {dirStat.path} - fs.undeletable)
              else fs.deletions == old(fs.deletions) && fs.children == old(fs.children)
    {
      completed := true;
      // files are never candidates
      if !dirStat.isDir {
        return;
      }
      var dirname := dirStat.path;
      if Occurs(fileToCleanPattern, dirname) {
        if currentTime - dirStat.modTime > cleanThreshold {
          // the boolean the delete returns is not used
          var deleted := fs.Delete(dirStat.path, true);
          completed := deleted.Ok?;
        }
      }
    }
  }
}
