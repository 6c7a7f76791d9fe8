// What one sweep of the cleaner deletes, as functions of the listing, the
// fault (if any) and the clock reading taken at the start of the sweep, and
// the properties of that selection.
module Sweeps {
  import opened Entries
  import opened Patterns

  /** The selection rule of one sweep: the configured pattern and age
      threshold, and the single clock reading every child is compared with. */
  datatype Rule = Rule(pattern: string, threshold: int, now: int)

  /** A child is reclaimed when it is a directory, the pattern is found in its
      path, and its age is strictly greater than the threshold. */
  predicate Eligible(e: Entry, rule: Rule)
  {
    e.isDir && Occurs(rule.pattern, e.path) && rule.now - e.modTime > rule.threshold
  }

  /** The eligible children, in listing order. */
  function Selected(cs: seq<Entry>, rule: Rule): (r: seq<Entry>)
    ensures |r| <= |cs|
    ensures forall e {:trigger e in r} :: e in r <==> e in cs && Eligible(e, rule)
  {
    if cs == [] then []
    else (if Eligible(cs[0], rule) then [cs[0]] else []) + Selected(cs[1..], rule)
  }

  /** Index of the first child whose delete throws under `DeleteFails(p)`:
      the first eligible child with path `p`, or `|cs|` when there is none. */
  function FailingDeleteIndex(cs: seq<Entry>, p: string, rule: Rule): (k: nat)
    ensures k <= |cs|
    ensures k < |cs| ==> Eligible(cs[k], rule) && cs[k].path == p
    ensures forall j :: 0 <= j < k ==> !(Eligible(cs[j], rule) && cs[j].path == p)
  {
    if cs == [] then 0
    else if Eligible(cs[0], rule) && cs[0].path == p then 0
    else 1 + FailingDeleteIndex(cs[1..], p, rule)
  }

  /** How many children the loop handles completely before the fault ends it. */
  function Reached(cs: seq<Entry>, fault: Fault, rule: Rule): nat
  {
    match fault
    case IterationFails(after) => if after < |cs| then after else |cs|
    case DeleteFails(p) => FailingDeleteIndex(cs, p, rule)
    case _ => |cs|
  }

  /** The children one sweep deletes, in the order of the delete calls:
      nothing when `exists` or the listing throws or the directory is absent,
      otherwise the eligible children before the point where the fault ends
      the loop. */
  function Swept(present: bool, cs: seq<Entry>, fault: Fault, rule: Rule): seq<Entry>
  {
    if fault == ExistsFails || !present || fault == ListingFails then []
    else Reclaimed(cs, fault, rule)
  }

  /** The children the loop over the listing deletes: the eligible ones among
      those it reaches. */
  function Reclaimed(cs: seq<Entry>, fault: Fault, rule: Rule): seq<Entry>
  {
    Selected(cs[..Reached(cs, fault, rule)], rule)
  }

  /** The paths of some children. */
  function PathSet(es: seq<Entry>): set<string>
  {
    set e | e in es :: e.path
  }

  /** The log of recursive delete calls on the given children, in order. */
  function RecursiveDeletions(es: seq<Entry>): seq<Deletion>
  {
    if es == [] then []
    else RecursiveDeletions(es[..|es| - 1]) + [Deletion(es[|es| - 1].path, true)]
  }

  /** The children that remain once every path in `gone` is deleted. */
  function Keep(cs: seq<Entry>, gone: set<string>): (r: seq<Entry>)
    ensures |r| <= |cs|
    ensures forall e {:trigger e in r} :: e in r <==> e in cs && e.path !in gone
  {
    if cs == [] then []
    else (if cs[0].path in gone then [] else [cs[0]]) + Keep(cs[1..], gone)
  }

  // ---------------------------------------------------------------------
  // Lemmas

  /** Selection keeps listing order: it distributes over concatenation. */
  lemma {:induction false} SelectedAppend(a: seq<Entry>, b: seq<Entry>, rule: Rule)
    ensures Selected(a + b, rule) == Selected(a, rule) + Selected(b, rule)
  {
    if a == [] {
      assert a + b == b;
    } else {
      assert (a + b)[0] == a[0] && (a + b)[1..] == a[1..] + b;
      SelectedAppend(a[1..], b, rule);
    }
  }

  /** Handling one more child of the listing adds it to the selection exactly
      when it is eligible. */
  lemma SelectedStep(cs: seq<Entry>, k: nat, rule: Rule)
    requires k < |cs|
    ensures Selected(cs[..k + 1], rule)
         == Selected(cs[..k], rule) + (if Eligible(cs[k], rule) then [cs[k]] else [])
  {
    assert cs[..k + 1] == cs[..k] + [cs[k]];
    SelectedAppend(cs[..k], [cs[k]], rule);
    assert [cs[k]][1..] == [];
  }

  /** A selection with no eligible child is empty. */
  lemma SelectedNone(cs: seq<Entry>, rule: Rule)
    requires forall e :: e in cs ==> !Eligible(e, rule)
    ensures Selected(cs, rule) == []
  {
  }

  /** Deleting nothing leaves the children as they are. */
  lemma {:induction false} KeepNothing(cs: seq<Entry>)
    ensures Keep(cs, {}) == cs
  {
    if cs != [] {
      KeepNothing(cs[1..]);
    }
  }

  /** Deleting two sets of paths one after the other is deleting their union. */
  lemma {:induction false} KeepTwice(cs: seq<Entry>, a: set<string>, b: set<string>)
    ensures Keep(Keep(cs, a), b) == Keep(cs, a + b)
  {
    if cs != [] {
      KeepTwice(cs[1..], a, b);
      var head := if cs[0].path in a then [] else [cs[0]];
      assert Keep(cs, a) == head + Keep(cs[1..], a);
      if cs[0].path !in a {
        assert Keep(cs, a)[0] == cs[0] && Keep(cs, a)[1..] == Keep(cs[1..], a);
      } else {
        assert Keep(cs, a) == Keep(cs[1..], a);
      }
    }
  }

  /** Deleting one more child `e` after the children `done`: the log grows by
      one recursive delete of its path, and the children left are those whose
      path is in neither, except the ones whose delete removes nothing. */
  lemma DeletionStep(cs: seq<Entry>, done: seq<Entry>, e: Entry, undeletable: set<string>)
    ensures RecursiveDeletions(done + [e]) == RecursiveDeletions(done) + [Deletion(e.path, true)]
    ensures Keep(Keep(cs, PathSet(done) - undeletable), {e.path} - undeletable)
         == Keep(cs, PathSet(done + [e]) - undeletable)
    ensures PathSet(done + [e]) == PathSet(done) + {e.path}
  {
    assert (done + [e])[..|done|] == done;
    assert e in done + [e];
    assert forall x :: x in done + [e] <==> x in done || x == e;
    assert PathSet(done + [e]) == PathSet(done) + {e.path};
    KeepTwice(cs, PathSet(done) - undeletable, {e.path} - undeletable);
    assert (PathSet(done) - undeletable) + ({e.path} - undeletable) == PathSet(done + [e]) - undeletable;
  }

  /** Only eligible children are ever deleted: a file, a directory whose path
      does not contain the pattern, and a directory no older than the
      threshold (age equal to the threshold included) all survive any sweep,
      whatever the fault. */
  lemma NeverSwept(present: bool, cs: seq<Entry>, fault: Fault, rule: Rule, e: Entry)
    ensures !e.isDir ==> e !in Swept(present, cs, fault, rule)
    ensures !Occurs(rule.pattern, e.path) ==> e !in Swept(present, cs, fault, rule)
    ensures rule.now - e.modTime <= rule.threshold ==> e !in Swept(present, cs, fault, rule)
    ensures e in Swept(present, cs, fault, rule) ==> e in cs
  {
    if e in Swept(present, cs, fault, rule) {
      var k := Reached(cs, fault, rule);
      assert e in cs[..k] && Eligible(e, rule);
    }
  }

  /** Without a fault, a sweep of an existing directory deletes exactly the
      eligible children, in listing order. */
  lemma SweptComplete(cs: seq<Entry>, rule: Rule)
    ensures Swept(true, cs, NoFault, rule) == Selected(cs, rule)
    ensures forall e :: e in Swept(true, cs, NoFault, rule) <==> e in cs && Eligible(e, rule)
  {
    assert cs[..|cs|] == cs;
  }

  /** Whatever the fault, the deletions that happen are a prefix of the
      deletions of a sweep without fault: those before the failure point
      are done, none after it. */
  lemma SweptIsPrefix(present: bool, cs: seq<Entry>, fault: Fault, rule: Rule)
    ensures |Swept(present, cs, fault, rule)| <= |Selected(cs, rule)|
    ensures Swept(present, cs, fault, rule) == Selected(cs, rule)[..|Swept(present, cs, fault, rule)|]
  {
    if present && fault != ExistsFails && fault != ListingFails {
      var k := Reached(cs, fault, rule);
      assert cs == cs[..k] + cs[k..];
      SelectedAppend(cs[..k], cs[k..], rule);
    }
  }

  /** When the delete of the `k`-th child is the first one that throws, the
      sweep has deleted exactly what a sweep of the first `k` children
      deletes, and nothing from the `k`-th child on. */
  lemma DeleteFailureEndsSweep(present: bool, cs: seq<Entry>, p: string, rule: Rule, k: nat)
    requires k < |cs| && Eligible(cs[k], rule) && cs[k].path == p
    requires forall j :: 0 <= j < k ==> cs[j].path != p
    ensures Swept(present, cs, DeleteFails(p), rule) == Swept(present, cs[..k], NoFault, rule)
  {
    assert FailingDeleteIndex(cs, p, rule) == k;
    assert cs[..k][..k] == cs[..k];
  }

  /** The path whose delete throws is never in the log of a sweep. */
  lemma FailedPathNotDeleted(present: bool, cs: seq<Entry>, p: string, rule: Rule)
    ensures forall e :: e in Swept(present, cs, DeleteFails(p), rule) ==> e.path != p
  {
    var k := FailingDeleteIndex(cs, p, rule);
    forall e | e in Swept(present, cs, DeleteFails(p), rule)
      ensures e.path != p
    {
      assert e in cs[..k] && Eligible(e, rule);
      var j :| 0 <= j < k && cs[..k][j] == e;
      assert cs[j] == e;
    }
  }

  /** Children after the failure point are not examined: once the fault ends
      the loop inside `cs`, whatever the listing holds after `cs` does not
      change what is deleted. */
  lemma UnexaminedIgnored(present: bool, cs: seq<Entry>, rest: seq<Entry>, fault: Fault, rule: Rule)
    requires fault.IterationFails? ==> fault.after <= |cs|
    requires fault.DeleteFails? ==> FailingDeleteIndex(cs, fault.path, rule) < |cs|
    requires fault.IterationFails? || fault.DeleteFails?
    ensures Swept(present, cs + rest, fault, rule) == Swept(present, cs, fault, rule)
  {
    var k := Reached(cs, fault, rule);
    if fault.DeleteFails? {
      var k' := FailingDeleteIndex(cs + rest, fault.path, rule);
      assert (cs + rest)[k] == cs[k];
      assert k' <= k;
    }
    assert Reached(cs + rest, fault, rule) == k;
    assert (cs + rest)[..k] == cs[..k];
  }

  /** A second sweep with no change to the filesystem in between, and a clock
      that has not moved forward, only retries the children whose delete
      returned false without removing them; when every delete removes its
      directory, it deletes nothing. */
  lemma Idempotent(present: bool, cs: seq<Entry>, rule: Rule, later: Rule, undeletable: set<string>)
    requires later.pattern == rule.pattern && later.threshold == rule.threshold
    requires later.now <= rule.now
    ensures forall e ::
              e in Swept(present, Keep(cs, PathSet(Swept(present, cs, NoFault, rule)) - undeletable), NoFault, later)
              ==> e in cs && e.path in undeletable
    ensures undeletable == {} ==>
              Swept(present, Keep(cs, PathSet(Swept(present, cs, NoFault, rule)) - undeletable), NoFault, later) == []
  {
    if present {
      var first := Swept(present, cs, NoFault, rule);
      var left := Keep(cs, PathSet(first) - undeletable);
      SweptComplete(cs, rule);
      assert left[..|left|] == left;
      forall e | e in left && e.path !in undeletable
        ensures !Eligible(e, later)
      {
      }
      if undeletable == {} {
        SelectedNone(left, later);
      }
    }
  }

  /** A worked sweep with a one-hour threshold: an old job directory goes, a
      young one and an old plain file stay. */
  lemma OneHourExample()
    ensures var rule := Rule("jobcache_", 3_600_000, 10_000_000);
            var stale := Entry("jobcache_001", true, 10_000_000 - 7_200_000);
            var young := Entry("jobcache_002", true, 10_000_000 - 1_800_000);
            var file := Entry("readme.txt", false, 10_000_000 - 18_000_000);
            Swept(true, [stale, young, file], NoFault, rule) == [stale]
  {
    var rule := Rule("jobcache_", 3_600_000, 10_000_000);
    var stale := Entry("jobcache_001", true, 10_000_000 - 7_200_000);
    var young := Entry("jobcache_002", true, 10_000_000 - 1_800_000);
    var file := Entry("readme.txt", false, 10_000_000 - 18_000_000);
    var cs := [stale, young, file];
    assert stale.path[..|rule.pattern|] == rule.pattern;
    assert Eligible(stale, rule) && !Eligible(young, rule) && !Eligible(file, rule);
    SweptComplete(cs, rule);
    assert cs[1..][1..][1..] == [];
  }

  // ---------------------------------------------------------------------
  // The loop of a sweep, as a relation between the children it has handled
  // and the filesystem state it has produced

  /** After handling the first `k` children of `listing` without an
      exception, the loop has deleted `done`, the delete log has grown from
      `log0` to `log`, and the children have gone from `cs0` to `cs`, where
      the paths in `undeletable` are never removed. */
  ghost predicate Progress(listing: seq<Entry>, fault: Fault, rule: Rule, undeletable: set<string>,
                           k: nat, done: seq<Entry>,
                           log0: seq<Deletion>, log: seq<Deletion>, cs0: seq<Entry>, cs: seq<Entry>)
  {
    && k <= |listing|
    && (fault.IterationFails? ==> k <= fault.after)
    && (fault.DeleteFails? ==> fault.path !in PathSet(done))
    && done == Selected(listing[..k], rule)
    && log == log0 + RecursiveDeletions(done)
    && cs == Keep(cs0, PathSet(done) - undeletable)
  }

  /** When the loop has ended, the delete log has grown from `log0` to `log`
      by the recursive deletions of what the sweep reclaims from `listing`,
      and the children have gone from `cs0` to `cs` by dropping those paths,
      except the ones in `undeletable`. */
  ghost predicate Finished(listing: seq<Entry>, fault: Fault, rule: Rule, undeletable: set<string>,
                           log0: seq<Deletion>, log: seq<Deletion>, cs0: seq<Entry>, cs: seq<Entry>)
  {
    && log == log0 + RecursiveDeletions(Reclaimed(listing, fault, rule))
    && cs == Keep(cs0, PathSet(Reclaimed(listing, fault, rule)) - undeletable)
  }

  /** Nothing is handled before the loop starts. */
  lemma ProgressStart(listing: seq<Entry>, fault: Fault, rule: Rule, undeletable: set<string>,
                      log0: seq<Deletion>, cs0: seq<Entry>)
    ensures Progress(listing, fault, rule, undeletable, 0, [], log0, log0, cs0, cs0)
  {
    assert listing[..0] == [];
    KeepNothing(cs0);
    assert PathSet([]) - undeletable == {};
  }

  /** Handling the `k`-th child without an exception: the iterator did not
      throw, and neither did the delete, which happened exactly when the
      child is eligible. */
  lemma ProgressStep(listing: seq<Entry>, fault: Fault, rule: Rule, undeletable: set<string>,
                     k: nat, done: seq<Entry>,
                     log0: seq<Deletion>, log: seq<Deletion>, cs0: seq<Entry>, cs: seq<Entry>,
                     log': seq<Deletion>, cs': seq<Entry>)
    requires Progress(listing, fault, rule, undeletable, k, done, log0, log, cs0, cs)
    requires k < |listing| && fault != IterationFails(k)
    requires !(Eligible(listing[k], rule) && fault == DeleteFails(listing[k].path))
    requires Eligible(listing[k], rule) ==>
               log' == log + [Deletion(listing[k].path, true)] && cs' == Keep(cs, {listing[k].path} - undeletable)
    requires !Eligible(listing[k], rule) ==> log' == log && cs' == cs
    ensures Progress(listing, fault, rule, undeletable, k + 1, if Eligible(listing[k], rule) then done + [listing[k]] else done,
                     log0, log', cs0, cs')
  {
    var e := listing[k];
    SelectedStep(listing, k, rule);
    if Eligible(e, rule) {
      DeletionStep(cs0, done, e, undeletable);
    }
  }

  /** Where the loop stops: the iterator throws after `k` children, the
      listing is exhausted, or the delete of the `k`-th child throws. In each
      case the loop has deleted exactly `Reclaimed`. */
  lemma ProgressEnd(listing: seq<Entry>, fault: Fault, rule: Rule, undeletable: set<string>,
                    k: nat, done: seq<Entry>,
                    log0: seq<Deletion>, log: seq<Deletion>, cs0: seq<Entry>, cs: seq<Entry>)
    requires Progress(listing, fault, rule, undeletable, k, done, log0, log, cs0, cs)
    requires || fault == IterationFails(k)
             || k == |listing|
             || (k < |listing| && Eligible(listing[k], rule) && fault == DeleteFails(listing[k].path))
    ensures Finished(listing, fault, rule, undeletable, log0, log, cs0, cs)
  {
    ReclaimedStopsAt(listing, fault, rule, k);
  }

  /** Where the loop of a sweep over an existing directory stops: the
      iterator throws after `k` entries, the listing is exhausted, or the
      delete of the `k`-th child throws. In each case the sweep has deleted
      the eligible children among the first `k`. */
  lemma ReclaimedStopsAt(cs: seq<Entry>, fault: Fault, rule: Rule, k: nat)
    requires k <= |cs|
    requires fault.IterationFails? ==> k <= fault.after
    requires fault.DeleteFails? ==> fault.path !in PathSet(Selected(cs[..k], rule))
    requires || fault == IterationFails(k)
             || k == |cs|
             || (fault.DeleteFails? && k < |cs| && Eligible(cs[k], rule) && cs[k].path == fault.path)
    ensures Reclaimed(cs, fault, rule) == Selected(cs[..k], rule)
  {
    if fault.DeleteFails? {
      forall j | 0 <= j < k && Eligible(cs[j], rule)
        ensures cs[j].path != fault.path
      {
        assert cs[j] == cs[..k][j];
        assert cs[j] in Selected(cs[..k], rule);
      }
      assert FailingDeleteIndex(cs, fault.path, rule) == k;
    }
  }
}
