// The file-name pattern of the cleaner is tested with an unanchored search
// (`Matcher.find()`): a path matches when the pattern is found anywhere in it.
// A literal pattern searched as a substring stands in for the regular
// expression engine.
module Patterns {

  /** `p` occurs in `s` starting at index `i`. */
  ghost predicate OccursAt(p: string, s: string, i: int)
  {
    0 <= i && i + |p| <= |s| && s[i..i + |p|] == p
  }

  /** Shifting the search window by one character. */
  lemma OccursAtTail(p: string, s: string)
    requires |s| > 0
    ensures (exists i :: OccursAt(p, s, i)) <==> OccursAt(p, s, 0) || exists j :: OccursAt(p, s[1..], j)
  {
    forall i | OccursAt(p, s, i) && i > 0
      ensures OccursAt(p, s[1..], i - 1)
    {
      assert s[1..][i - 1..i - 1 + |p|] == s[i..i + |p|];
    }
    forall j | OccursAt(p, s[1..], j)
      ensures OccursAt(p, s, j + 1)
    {
      assert s[1..][j..j + |p|] == s[j + 1..j + 1 + |p|];
    }
  }

  /** Unanchored search: is `p` found anywhere in `s`? */
  function Occurs(p: string, s: string): (found: bool)
    ensures found <==> exists i :: OccursAt(p, s, i)
    decreases |s|
  {
    if |p| > |s| then false
    else if s[..|p|] == p then assert OccursAt(p, s, 0); true
    else
      OccursAtTail(p, s);
      Occurs(p, s[1..])
  }

  /** A match is not anchored at either end: the pattern is found inside any
      text that surrounds it, and only inside such text. */
  lemma {:induction false} FoundAnywhere(p: string, s: string)
    ensures Occurs(p, s) <==> exists before, after :: s == before + p + after
  {
    if Occurs(p, s) {
      var i :| OccursAt(p, s, i);
      assert s == s[..i] + p + s[i + |p|..];
    }
    if exists before, after :: s == before + p + after {
      var before, after :| s == before + p + after;
      assert s[|before|..|before| + |p|] == p;
      assert OccursAt(p, s, |before|);
    }
  }
}
