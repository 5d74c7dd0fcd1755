/**
 * Python's `str.find` and `str.index`, and the repeated search that
 * `get_start_end_idxs` runs with them.
 */
module PyFind {
  import opened Wrappers

  /** `pat[k..]` matches `s` from index `i + k` on. */
  predicate MatchesFrom(s: string, pat: string, i: nat, k: nat)
    requires i + |pat| <= |s| && k <= |pat|
    decreases |pat| - k
  {
    k == |pat| || (s[i + k] == pat[k] && MatchesFrom(s, pat, i, k + 1))
  }

  /** `pat` occurs in `s` starting at index `i`, compared character by character. */
  predicate OccursAt(s: string, pat: string, i: nat) {
    i + |pat| <= |s| && MatchesFrom(s, pat, i, 0)
  }

  lemma {:induction false} MatchesFromAll(s: string, pat: string, i: nat, k: nat)
    requires i + |pat| <= |s| && k <= |pat|
    decreases |pat| - k
    ensures MatchesFrom(s, pat, i, k) <==> forall j :: k <= j < |pat| ==> s[i + j] == pat[j]
  {
    if k < |pat| {
      MatchesFromAll(s, pat, i, k + 1);
    }
  }

  /** An occurrence is a slice equal to the pattern. */
  lemma OccursAtSlice(s: string, pat: string, i: nat)
    ensures OccursAt(s, pat, i) <==> i + |pat| <= |s| && s[i..i + |pat|] == pat
  {
    if i + |pat| <= |s| {
      MatchesFromAll(s, pat, i, 0);
      if s[i..i + |pat|] == pat {
        forall j | 0 <= j < |pat|
          ensures s[i + j] == pat[j]
        {
          assert s[i..i + |pat|][j] == s[i + j];
        }
      }
    }
  }

  /** `s.find(pat, from)`: the first occurrence of `pat` at or after `from`, if any. */
  function Find(s: string, pat: string, from: nat): (r: Option<nat>)
    decreases |s| - from
    ensures r.Some? ==> from <= r.value && OccursAt(s, pat, r.value)
    ensures forall j :: from <= j && (r.None? || j < r.value) ==> !OccursAt(s, pat, j)
  {
    if from + |pat| > |s| then None
    else if OccursAt(s, pat, from) then Some(from)
    else Find(s, pat, from + 1)
  }

  /** `s[a..].find(pat, f)` is `s.find(pat, a + f)` shifted back by `a`. */
  lemma {:induction false} FindSlice(s: string, pat: string, a: nat, f: nat)
    requires a <= |s|
    ensures Find(s[a..], pat, f).None? <==> Find(s, pat, a + f).None?
    ensures Find(s, pat, a + f).Some? ==> Find(s[a..], pat, f).value + a == Find(s, pat, a + f).value
    decreases |s| - a - f
  {
    var t := s[a..];
    if f + |pat| <= |t| {
      assert t[f..f + |pat|] == s[a + f..a + f + |pat|];
      OccursAtSlice(t, pat, f);
      OccursAtSlice(s, pat, a + f);
      if !OccursAt(t, pat, f) {
        FindSlice(s, pat, a, f + 1);
      }
    }
  }

  /**
   * The search loop of `get_start_end_idxs` as a function: `found` extended by
   * every occurrence of `pat` at or after `from`, each met by one more `find`.
   */
  function FindAllFrom(s: string, pat: string, from: nat, found: seq<nat>): seq<nat>
    requires |pat| > 0
    decreases |s| - from
  {
    match Find(s, pat, from)
    case None => found
    case Some(i) => FindAllFrom(s, pat, i + 1, found + [i])
  }

  /** Every occurrence of `pat` in `s`, in the order repeated `find` meets them. */
  function Occurrences(s: string, pat: string): seq<nat>
    requires |pat| > 0
  {
    FindAllFrom(s, pat, 0, [])
  }

  predicate StrictlyIncreasing(xs: seq<nat>) {
    forall i, j :: 0 <= i < j < |xs| ==> xs[i] < xs[j]
  }

  /**
   * Extending an increasing list of positions below `from` by the search from
   * `from` adds exactly the occurrences at or after `from`, in increasing order.
   */
  lemma {:induction false} FindAllFromExact(s: string, pat: string, from: nat, found: seq<nat>)
    requires |pat| > 0
    requires StrictlyIncreasing(found) && forall k :: 0 <= k < |found| ==> found[k] < from
    ensures forall i :: i in FindAllFrom(s, pat, from, found) <==> i in found || (from <= i && OccursAt(s, pat, i))
    ensures StrictlyIncreasing(FindAllFrom(s, pat, from, found))
    decreases |s| - from
  {
    match Find(s, pat, from)
    case None =>
    case Some(i) =>
      var next := found + [i];
      assert forall k :: 0 <= k < |found| ==> next[k] == found[k];
      assert StrictlyIncreasing(next);
      assert forall x :: x in next <==> x in found || x == i;
      FindAllFromExact(s, pat, i + 1, next);
  }

  /** The repeated search finds exactly the occurrences of `pat`, in increasing order. */
  lemma OccurrencesExact(s: string, pat: string)
    requires |pat| > 0
    ensures forall i :: i in Occurrences(s, pat) <==> OccursAt(s, pat, i)
    ensures StrictlyIncreasing(Occurrences(s, pat))
  {
    FindAllFromExact(s, pat, 0, []);
  }

  lemma FindAllFromDone(s: string, pat: string, from: nat, found: seq<nat>)
    requires |pat| > 0 && Find(s, pat, from).None?
    ensures FindAllFrom(s, pat, from, found) == found
  {
  }

  lemma FindAllFromStep(s: string, pat: string, from: nat, found: seq<nat>)
    requires |pat| > 0 && Find(s, pat, from).Some?
    ensures FindAllFrom(s, pat, from, found)
            == FindAllFrom(s, pat, Find(s, pat, from).value + 1, found + [Find(s, pat, from).value])
  {
  }

  /**
   * The search loop of `get_start_end_idxs`: `index` the first `pat`, then
   * `find` past the last one found. The source searches the slice after the
   * last position and adds the offset back; `FindSlice` shows that this is
   * `Find` on the whole string from `last + 1`, which is what the loop calls.
   */
  method StartIdxs(s: string, pat: string) returns (r: Option<seq<nat>>)
    requires |pat| > 0
    ensures r == if Occurrences(s, pat) == [] then None else Some(Occurrences(s, pat))
  {
    ghost var all := Occurrences(s, pat);
    var first := Find(s, pat, 0);
    if first.None? {
      FindAllFromDone(s, pat, 0, []);
      return None;
    }
    var last: nat := first.value;
    var startIdxs: seq<nat> := [last];
    FindAllFromStep(s, pat, 0, []);
    assert [] + [last] == startIdxs;
    while true
      invariant |startIdxs| > 0 && last == startIdxs[|startIdxs| - 1] && last < |s|
      invariant FindAllFrom(s, pat, last + 1, startIdxs) == all
      decreases |s| - last
    {
      var idx := Find(s, pat, last + 1);
      if idx.None? {
        FindAllFromDone(s, pat, last + 1, startIdxs);
        return Some(startIdxs);
      }
      FindAllFromStep(s, pat, last + 1, startIdxs);
      last := idx.value;
      startIdxs := startIdxs + [last];
    }
  }
}
