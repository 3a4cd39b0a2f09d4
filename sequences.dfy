/** Order-preserving filtering (`Array.prototype.filter`). */
module Sequences {

  /** A prefix one longer is the prefix with the next element appended. */
  lemma TakeOneMore<T>(s: seq<T>, i: nat)
    requires i < |s|
    ensures s[..i + 1] == s[..i] + [s[i]]
  {
  }

  /** A relation that holds between the first elements of two sequences
      and between the rest of them, index by index, holds between the whole
      sequences, index by index. */
  lemma PairwiseCons<T, U>(related: (T, U) -> bool, xs: seq<T>, y: U, ys: seq<U>)
    requires xs != [] && |ys| == |xs| - 1
    requires related(xs[0], y)
    requires forall i :: 0 <= i < |ys| ==> related(xs[1..][i], ys[i])
    ensures forall i :: 0 <= i < |xs| ==> related(xs[i], ([y] + ys)[i])
  {
    forall i | 0 < i < |xs|
      ensures related(xs[i], ([y] + ys)[i])
    {
      assert xs[i] == xs[1..][i - 1] && ([y] + ys)[i] == ys[i - 1];
    }
  }

  function Filter<T(!new)>(s: seq<T>, keep: T -> bool): (r: seq<T>)
    ensures |r| <= |s|
    ensures forall x :: x in r <==> x in s && keep(x)
    ensures forall i :: 0 <= i < |r| ==> keep(r[i])
  {
    if s == [] then []
    else if keep(s[0]) then [s[0]] + Filter(s[1..], keep)
    else Filter(s[1..], keep)
  }

  /** Filtering distributes over concatenation, so the kept elements stay
      in the order in which they were listed. */
  lemma {:induction false} FilterAppend<T(!new)>(s: seq<T>, t: seq<T>, keep: T -> bool)
    ensures Filter(s + t, keep) == Filter(s, keep) + Filter(t, keep)
  {
    if s == [] {
      assert s + t == t;
    } else {
      assert (s + t)[0] == s[0];
      assert (s + t)[1..] == s[1..] + t;
      FilterAppend(s[1..], t, keep);
    }
  }
}
