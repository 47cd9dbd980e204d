/** Filtered lists that keep document order: the `for x in ...: if y: out.append(y)` pattern. */
module Seqs {
  import opened Wrappers

  /** The values `f` produces for the elements of `s`, in order, dropping the elements it rejects. */
  function FilterMap<A, B>(f: A -> Option<B>, s: seq<A>): (r: seq<B>)
    ensures |r| <= |s|
  {
    if s == [] then []
    else FilterMap(f, s[..|s| - 1]) + Kept(f, s[|s| - 1])
  }

  /** What one element contributes to a filtered list. */
  function Kept<A, B>(f: A -> Option<B>, x: A): (r: seq<B>)
    ensures |r| <= 1
  {
    match f(x)
    case Some(y) => [y]
    case None => []
  }

  /** One more element of the input adds what that element contributes: the loop step of the pattern. */
  lemma FilterMapStep<A, B>(f: A -> Option<B>, s: seq<A>, i: nat)
    requires i < |s|
    ensures FilterMap(f, s[..i + 1]) == FilterMap(f, s[..i]) + Kept(f, s[i])
  {
    assert s[..i + 1][..i] == s[..i];
  }

  /** Filtering distributes over concatenation, so the output keeps the input's order. */
  lemma {:induction false} FilterMapAppend<A, B>(f: A -> Option<B>, a: seq<A>, b: seq<A>)
    ensures FilterMap(f, a + b) == FilterMap(f, a) + FilterMap(f, b)
    decreases |b|
  {
    if b == [] {
      assert a + b == a;
    } else {
      var b' := b[..|b| - 1];
      assert (a + b)[..|a + b| - 1] == a + b';
      assert (a + b)[|a + b| - 1] == b[|b| - 1];
      FilterMapAppend(f, a, b');
    }
  }

  /** An element that `f` rejects can be removed without changing the output. */
  lemma FilterMapSkip<A, B>(f: A -> Option<B>, a: seq<A>, x: A, b: seq<A>)
    requires f(x).None?
    ensures FilterMap(f, a + [x] + b) == FilterMap(f, a + b)
  {
    var ax := a + [x];
    FilterMapAppend(f, ax, b);
    FilterMapStep(f, ax, |a|);
    assert ax[..|a| + 1] == ax && ax[..|a|] == a && ax[|a|] == x;
    assert Kept(f, x) == [];
    assert FilterMap(f, ax) == FilterMap(f, a) + [] == FilterMap(f, a);
    FilterMapAppend(f, a, b);
  }

  /** An element is in the output exactly when `f` produced it from some input element. */
  lemma {:induction false} FilterMapMember<A, B>(f: A -> Option<B>, s: seq<A>, y: B)
    ensures y in FilterMap(f, s) <==> exists i :: 0 <= i < |s| && f(s[i]) == Some(y)
    decreases |s|
  {
    if s != [] {
      var s', x := s[..|s| - 1], s[|s| - 1];
      FilterMapMember(f, s', y);
      assert FilterMap(f, s) == FilterMap(f, s') + Kept(f, x);
      assert y in Kept(f, x) <==> f(x) == Some(y);
      assert forall i :: 0 <= i < |s'| ==> s'[i] == s[i];
      if exists i :: 0 <= i < |s| && f(s[i]) == Some(y) {
        var i :| 0 <= i < |s| && f(s[i]) == Some(y);
        assert i < |s'| ==> f(s'[i]) == Some(y);
      }
    }
  }

  /** When `f` accepts every element, nothing is dropped. */
  lemma {:induction false} FilterMapAllKept<A, B>(f: A -> Option<B>, s: seq<A>)
    requires forall i :: 0 <= i < |s| ==> f(s[i]).Some?
    ensures |FilterMap(f, s)| == |s|
    decreases |s|
  {
    if s != [] {
      var s' := s[..|s| - 1];
      assert forall i :: 0 <= i < |s'| ==> s'[i] == s[i];
      FilterMapAllKept(f, s');
    }
  }

  /** When `f` rejects every element, the output is empty. */
  lemma {:induction false} FilterMapNoneKept<A, B>(f: A -> Option<B>, s: seq<A>)
    requires forall i :: 0 <= i < |s| ==> f(s[i]).None?
    ensures FilterMap(f, s) == []
    decreases |s|
  {
    if s != [] {
      var s' := s[..|s| - 1];
      assert forall i :: 0 <= i < |s'| ==> s'[i] == s[i];
      FilterMapNoneKept(f, s');
    }
  }
}
