/**
 * Filtering a sequence element by element, where each element is either kept
 * (possibly as another value) or dropped with one warning. Both steps of
 * training-population preparation have this shape.
 */
module Sifting {

  /** What the filter does with one element. */
  datatype Verdict<+U, +W> = Keep(kept: U) | Drop(warning: W)

  /** The kept values, in input order. */
  function Kept<T, U, W>(s: seq<T>, f: T -> Verdict<U, W>): seq<U> {
    if s == [] then []
    else Kept(s[..|s| - 1], f) + (match f(s[|s| - 1]) case Keep(u) => [u] case Drop(_) => [])
  }

  /** The warnings of the dropped elements, in input order. */
  function Dropped<T, U, W>(s: seq<T>, f: T -> Verdict<U, W>): seq<W> {
    if s == [] then []
    else Dropped(s[..|s| - 1], f) + (match f(s[|s| - 1]) case Keep(_) => [] case Drop(w) => [w])
  }

  /** Positions of the kept elements, ascending. */
  function KeptAt<T, U, W>(s: seq<T>, f: T -> Verdict<U, W>): seq<nat> {
    if s == [] then [] else KeptAt(s[..|s| - 1], f) + (if f(s[|s| - 1]).Keep? then [|s| - 1] else [])
  }

  /** Positions of the dropped elements, ascending. */
  function DroppedAt<T, U, W>(s: seq<T>, f: T -> Verdict<U, W>): seq<nat> {
    if s == [] then [] else DroppedAt(s[..|s| - 1], f) + (if f(s[|s| - 1]).Drop? then [|s| - 1] else [])
  }

  ghost predicate Increasing(idx: seq<nat>) {
    forall k, m :: 0 <= k < m < |idx| ==> idx[k] < idx[m]
  }

  /** `a` is `b` with some elements removed and the others kept in order. */
  ghost predicate IsSubsequence<T>(a: seq<T>, b: seq<T>) {
    exists idx: seq<nat> ::
      |idx| == |a| && Increasing(idx) && forall k :: 0 <= k < |idx| ==> idx[k] < |b| && a[k] == b[idx[k]]
  }

  /** Every element is kept or dropped, and accounted for exactly once. */
  lemma {:induction false} SiftAccounting<T, U, W>(s: seq<T>, f: T -> Verdict<U, W>)
    ensures |Kept(s, f)| + |Dropped(s, f)| == |s|
  {
    if s != [] {
      SiftAccounting(s[..|s| - 1], f);
    }
  }

  /** The k-th kept value comes from the k-th kept position, and a position is kept exactly when its verdict is Keep. */
  lemma {:induction false} KeptAtSpec<T, U, W>(s: seq<T>, f: T -> Verdict<U, W>)
    ensures |KeptAt(s, f)| == |Kept(s, f)|
    ensures Increasing(KeptAt(s, f))
    ensures forall k :: 0 <= k < |KeptAt(s, f)| ==>
              KeptAt(s, f)[k] < |s| && f(s[KeptAt(s, f)[k]]) == Keep(Kept(s, f)[k])
    ensures forall i :: 0 <= i < |s| ==> (i in KeptAt(s, f) <==> f(s[i]).Keep?)
  {
    if s != [] {
      var p := s[..|s| - 1];
      KeptAtSpec(p, f);
      assert forall i :: 0 <= i < |p| ==> p[i] == s[i];
    }
  }

  /** The k-th warning belongs to the k-th dropped position, and a position is dropped exactly when its verdict is Drop. */
  lemma {:induction false} DroppedAtSpec<T, U, W>(s: seq<T>, f: T -> Verdict<U, W>)
    ensures |DroppedAt(s, f)| == |Dropped(s, f)|
    ensures Increasing(DroppedAt(s, f))
    ensures forall k :: 0 <= k < |DroppedAt(s, f)| ==>
              DroppedAt(s, f)[k] < |s| && f(s[DroppedAt(s, f)[k]]) == Drop(Dropped(s, f)[k])
    ensures forall i :: 0 <= i < |s| ==> (i in DroppedAt(s, f) <==> f(s[i]).Drop?)
  {
    if s != [] {
      var p := s[..|s| - 1];
      DroppedAtSpec(p, f);
      assert forall i :: 0 <= i < |p| ==> p[i] == s[i];
    }
  }

  /** A filter that keeps elements unchanged only removes: its output is a subsequence of its input. */
  lemma KeptIsSubsequence<T, W>(s: seq<T>, f: T -> Verdict<T, W>)
    requires forall x :: f(x).Keep? ==> f(x).kept == x
    ensures IsSubsequence(Kept(s, f), s)
  {
    KeptAtSpec(s, f);
    var idx := KeptAt(s, f);
    assert forall k :: 0 <= k < |idx| ==> Kept(s, f)[k] == s[idx[k]] by {
      forall k | 0 <= k < |idx| ensures Kept(s, f)[k] == s[idx[k]] {
        assert f(s[idx[k]]) == Keep(Kept(s, f)[k]);
      }
    }
  }

  /** A value is kept exactly when some input element has verdict Keep of it. */
  lemma KeptMembers<T, U, W>(s: seq<T>, f: T -> Verdict<U, W>, u: U)
    ensures u in Kept(s, f) <==> exists i :: 0 <= i < |s| && f(s[i]) == Keep(u)
  {
    KeptAtSpec(s, f);
    var idx := KeptAt(s, f);
    if u in Kept(s, f) {
      var k :| 0 <= k < |Kept(s, f)| && Kept(s, f)[k] == u;
      assert f(s[idx[k]]) == Keep(u);
    }
    if i :| 0 <= i < |s| && f(s[i]) == Keep(u) {
      assert i in idx;
      var k :| 0 <= k < |idx| && idx[k] == i;
      assert Kept(s, f)[k] == u;
    }
  }
}
