/**
 Compile-time index lists (meta.hpp, lines 416-420 and 716-764):
 `make_index_sequence<N>` builds `[0, N)` by splitting N into two halves,
 building each, shifting the upper one with `add_` and concatenating.
 */
module MetaIndex {
  import opened MetaLists
  import opened MetaFunctional

  /** The lower half `n` of `detail::make_index_sequence<Seq, N>`, computed
      separately for odd and even `N`. */
  function LowerHalf(N: nat): (n: nat)
    ensures n == N / 2
    ensures N >= 2 ==> 1 <= n < N && 1 <= N - n < N
  {
    if N % 2 != 0 then (N - 1) / 2 else N / 2
  }

  /** `detail::make_index_sequence<Seq, N>`: `[0]` for 1, empty for 0, and
      otherwise the index list of the lower half followed by the index list of
      the upper half with `n` added to every element. The recursion terminates
      because both halves are below `N` once `N >= 2`. */
  function MakeIndexSequence(N: nat): (r: seq<nat>)
    ensures |r| == N
    ensures forall k :: 0 <= k < N ==> r[k] == k
    decreases N
  {
    if N == 0 then []
    else if N == 1 then [0]
    else
      var n := LowerHalf(N);
      var m := N - n;
      Cat(MakeIndexSequence(n), Fmap(x => Add(n, x), MakeIndexSequence(m)))
  }

  /** Growing the bound by one appends the old bound. */
  lemma MakeIndexSequenceStep(N: nat)
    ensures MakeIndexSequence(N + 1) == Append(N, MakeIndexSequence(N))
  {
    var l, r := MakeIndexSequence(N + 1), Append(N, MakeIndexSequence(N));
    assert |l| == |r|;
    forall k | 0 <= k < |l| ensures l[k] == r[k] { }
  }

  /** `to_index_sequence<Seq<Ts...>>` and `make_index_sequence_for<Ts...>`:
      one index per element of the list. */
  function ToIndexSequence<T>(xs: seq<T>): (r: seq<nat>)
    ensures |r| == |xs|
    ensures forall k :: 0 <= k < |xs| ==> r[k] == k && r[k] < |xs|
  {
    MakeIndexSequence(|xs|)
  }

  /** Looking up each index of `to_index_sequence` in the list reads the list
      back in order. */
  lemma IndicesAddressElements<T>(xs: seq<T>, d: T)
    ensures Fmap((k: nat) => if k < |xs| then xs[k] else d, ToIndexSequence(xs)) == xs
  {
    var r := Fmap((k: nat) => if k < |xs| then xs[k] else d, ToIndexSequence(xs));
    assert |r| == |xs|;
    forall k | 0 <= k < |xs| ensures r[k] == xs[k] { }
  }
}
