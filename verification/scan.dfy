/**
 * Hand-written stand-ins for the fixed regular expressions of the parsers. Each pattern is described by
 * a matcher `at(p)` that says whether the pattern matches starting at position `p` and what its group
 * captures; `re.search` is then the leftmost position where the matcher succeeds.
 */
module Scan {
  import opened Wrappers
  import opened Text

  /** The first position in `[from, to)` where `at` matches, and its capture. */
  function FirstMatch<T>(at: nat -> Option<T>, from: nat, to: nat): (r: Option<T>)
    ensures r.None? <==> forall p :: from <= p < to ==> at(p).None?
    ensures r.Some? ==> exists p :: from <= p < to && at(p) == r && (forall q :: from <= q < p ==> at(q).None?)
    decreases if from < to then to - from else 0
  {
    if from >= to then None
    else if at(from).Some? then at(from)
    else FirstMatch(at, from + 1, to)
  }

  /** Python's `re.search` over `s`: every start position, the end of `s` included. */
  function Search<T>(s: string, at: nat -> Option<T>): (r: Option<T>)
    ensures r.None? <==> forall p :: 0 <= p <= |s| ==> at(p).None?
    ensures r.Some? ==> exists p :: 0 <= p <= |s| && at(p) == r && (forall q :: 0 <= q < p ==> at(q).None?)
  {
    FirstMatch(at, 0, |s| + 1)
  }

  /** The search returns the capture of the leftmost position where the pattern matches. */
  lemma SearchFindsFirst<T>(s: string, at: nat -> Option<T>, p: nat)
    requires p <= |s| && at(p).Some? && forall q :: 0 <= q < p ==> at(q).None?
    ensures Search(s, at) == at(p)
  {
    var r := Search(s, at);
    var p' :| 0 <= p' <= |s| && at(p') == r && (forall q :: 0 <= q < p' ==> at(q).None?);
  }

  /** When the search finds nothing, the pattern matches nowhere in `s`. */
  lemma SearchFindsNothing<T>(s: string, at: nat -> Option<T>, p: nat)
    requires Search(s, at).None? && p <= |s|
    ensures at(p).None?
  {
  }

  /** Where `\s*` starting at `i` stops. */
  function SkipSpaces(s: string, i: nat): (j: nat)
    requires i <= |s|
    ensures i <= j <= |s|
    ensures forall k :: i <= k < j ==> IsSpace(s[k])
    ensures j == |s| || !IsSpace(s[j])
  {
    i + RunLength(s, i, IsSpace)
  }

  /** A greedy `(c+)` group for the character class `keep`, starting at `i`. */
  function RunAt(s: string, i: nat, keep: char -> bool): (r: Option<string>)
    ensures r.None? <==> i >= |s| || !keep(s[i])
    ensures r.Some? ==> && r.value != [] && StartsAt(s, i, r.value)
                        && (forall k :: 0 <= k < |r.value| ==> keep(r.value[k]))
                        && (i + |r.value| == |s| || !keep(s[i + |r.value|]))
  {
    if i >= |s| || !keep(s[i]) then None
    else
      var n := RunLength(s, i, keep);
      Some(s[i..i + n])
  }

  /** The pattern `prefix(c+)` starting at `i`. */
  function PrefixedRunAt(s: string, i: nat, prefix: string, keep: char -> bool): (r: Option<string>)
    ensures r.Some? ==> StartsAt(s, i, prefix) && RunAt(s, i + |prefix|, keep) == r
    ensures StartsAt(s, i, prefix) ==> r == RunAt(s, i + |prefix|, keep)
  {
    if StartsAt(s, i, prefix) then RunAt(s, i + |prefix|, keep) else None
  }

  /** A maximal run starting at `i` is what `RunAt` returns there. */
  lemma RunAtOf(s: string, i: nat, run: string, keep: char -> bool)
    requires StartsAt(s, i, run) && run != [] && forall k :: 0 <= k < |run| ==> keep(run[k])
    requires i + |run| == |s| || !keep(s[i + |run|])
    ensures RunAt(s, i, keep) == Some(run)
  {
    assert forall k :: 0 <= k < |run| ==> s[i + k] == run[k];
    var n := RunLength(s, i, keep);
    assert n == |run|;
  }

  /** A prefix followed by a maximal run is matched there, and the group is that run. */
  lemma PrefixedRunOf(pre: string, prefix: string, run: string, post: string, keep: char -> bool)
    requires run != [] && forall k :: 0 <= k < |run| ==> keep(run[k])
    requires post == [] || !keep(post[0])
    ensures PrefixedRunAt(pre + prefix + run + post, |pre|, prefix, keep) == Some(run)
  {
    var head := pre + prefix;
    var s := head + run + post;
    var i := |head|;
    assert s[|pre|..i] == prefix;
    forall k | 0 <= k < |run| ensures s[i + k] == run[k] {
      assert (head + run)[i + k] == run[k];
    }
    assert i + |run| < |s| ==> s[i + |run|] == post[0];
    var n := RunLength(s, i, keep);
    assert n == |run|;
    assert s[i..i + n] == run;
  }

  /** `prefix(c+)` cannot match where the first character of `prefix` does not occur. */
  lemma PrefixedRunAbsent(s: string, n: nat, prefix: string, keep: char -> bool)
    requires prefix != [] && n <= |s| && forall q :: 0 <= q < n ==> s[q] != prefix[0]
    ensures forall q :: 0 <= q < n ==> PrefixedRunAt(s, q, prefix, keep).None?
  {
  }
}
