/**
 Metafunctions over type lists (meta.hpp, lines 120-163 and 576-714): the
 integral combinators, `fmap`, `filter`, the two folds, `any_of` and `join`.

 A metafunction class (a type with a nested `apply`) is modelled as a Dafny
 function value; an integral constant as a `bool` or a `nat`.
 */
module MetaFunctional {
  import opened MetaLists

  /** `and_::apply<Lhs, Rhs>`. */
  function And(lhs: bool, rhs: bool): bool { lhs && rhs }

  /** `or_::apply<Lhs, Rhs>`. */
  function Or(lhs: bool, rhs: bool): bool { lhs || rhs }

  /** `add_::apply<Lhs, Rhs>` on `std::size_t` constants (no wrap-around). */
  function Add(lhs: nat, rhs: nat): nat { lhs + rhs }

  /** `fmap<Function, Seq<Ts...>>` and `pack_fmap<Function, Ts...>`: the pack
      expansion `Seq<apply_t<Function, Ts>...>`. */
  function Fmap<T, U>(f: T -> U, xs: seq<T>): (r: seq<U>)
    ensures |r| == |xs|
    ensures forall k :: 0 <= k < |xs| ==> r[k] == f(xs[k])
  {
    seq(|xs|, k requires 0 <= k < |xs| => f(xs[k]))
  }

  /** Mapping distributes over concatenation. */
  lemma FmapCat<T, U>(f: T -> U, a: seq<T>, b: seq<T>)
    ensures Fmap(f, Cat(a, b)) == Cat(Fmap(f, a), Fmap(f, b))
  {
    var l, r := Fmap(f, Cat(a, b)), Cat(Fmap(f, a), Fmap(f, b));
    assert |l| == |r|;
    forall k | 0 <= k < |l| ensures l[k] == r[k] {
      if k < |a| { assert r[k] == Fmap(f, a)[k]; } else { assert r[k] == Fmap(f, b)[k - |a|]; }
    }
  }

  /** The functor laws: mapping two functions in turn is mapping their
      composition, and mapping the identity changes nothing. */
  lemma FmapFunctorLaws<T, U, V>(f: T -> U, g: U -> V, xs: seq<T>)
    ensures Fmap(g, Fmap(f, xs)) == Fmap(x => g(f(x)), xs)
    ensures Fmap(x => x, xs) == xs
  {
    var l, r := Fmap(g, Fmap(f, xs)), Fmap(x => g(f(x)), xs);
    assert |l| == |r|;
    forall k | 0 <= k < |l| ensures l[k] == r[k] { }
  }

  /** `foldl<Function, Seed, Seq<Head, Tail...>>`: apply `f` to the seed and the
      head, then fold the tail from that result. */
  function FoldL<S, T>(f: (S, T) -> S, seed: S, xs: seq<T>): S
    decreases |xs|
  {
    if xs == [] then seed else FoldL(f, f(seed, xs[0]), xs[1..])
  }

  /** `foldr<Function, Seed, Seq<Head, Tail...>>`: fold the tail, then apply `f`
      to the head and that result. */
  function FoldR<S, T>(f: (T, S) -> S, seed: S, xs: seq<T>): S
    decreases |xs|
  {
    if xs == [] then seed else f(xs[0], FoldR(f, seed, xs[1..]))
  }

  /** A left fold over two concatenated lists folds the second from the
      result of the first. */
  lemma {:induction false} FoldLCat<S, T>(f: (S, T) -> S, seed: S, a: seq<T>, b: seq<T>)
    ensures FoldL(f, seed, Cat(a, b)) == FoldL(f, FoldL(f, seed, a), b)
    decreases |a|
  {
    if a != [] {
      assert Cat(a, b)[1..] == Cat(a[1..], b);
      FoldLCat(f, f(seed, a[0]), a[1..], b);
    } else {
      assert Cat(a, b) == b;
    }
  }

  /** A right fold over two concatenated lists folds the first onto the
      result of the second. */
  lemma {:induction false} FoldRCat<S, T>(f: (T, S) -> S, seed: S, a: seq<T>, b: seq<T>)
    ensures FoldR(f, seed, Cat(a, b)) == FoldR(f, FoldR(f, seed, b), a)
    decreases |a|
  {
    if a != [] {
      assert Cat(a, b)[1..] == Cat(a[1..], b);
      FoldRCat(f, seed, a[1..], b);
    } else {
      assert Cat(a, b) == b;
    }
  }

  /** The last step of a left fold applies `f` to the last element. */
  lemma FoldLLast<S, T>(f: (S, T) -> S, seed: S, xs: seq<T>, x: T)
    ensures FoldL(f, seed, Append(x, xs)) == f(FoldL(f, seed, xs), x)
  {
    FoldLCat(f, seed, xs, [x]);
    assert Cat(xs, [x]) == Append(x, xs);
  }

  /** `fmap` is the right fold that rebuilds the list with `f` applied. */
  lemma {:induction false} FmapIsFoldR<T, U>(f: T -> U, xs: seq<T>)
    ensures Fmap(f, xs) == FoldR((x, acc) => Prepend(f(x), acc), [], xs)
    decreases |xs|
  {
    if xs != [] {
      FmapIsFoldR(f, xs[1..]);
      assert Fmap(f, xs) == [f(xs[0])] + Fmap(f, xs[1..]);
    }
  }

  /** `detail::filter<Predicate, Seq<Filtered...>, Seq<Head, Tail...>>`: append
      the head to the accumulated list when the predicate holds of it, then
      filter the tail. */
  function FilterFrom<T>(p: T -> bool, filtered: seq<T>, xs: seq<T>): (r: seq<T>)
    ensures |filtered| <= |r| <= |filtered| + |xs|
    ensures r[..|filtered|] == filtered
    ensures forall k :: |filtered| <= k < |r| ==> p(r[k]) && r[k] in xs
    decreases |xs|
  {
    if xs == [] then filtered
    else
      var next := if p(xs[0]) then filtered + [xs[0]] else filtered;
      var r := FilterFrom(p, next, xs[1..]);
      assert r[..|filtered|] == r[..|next|][..|filtered|];
      r
  }

  /** `filter<Predicate, Seq>` and `pack_filter<Predicate, Ts...>`: the
      accumulator starts as the empty list of the same template. */
  function Filter<T>(p: T -> bool, xs: seq<T>): (r: seq<T>)
    ensures |r| <= |xs|
    ensures forall k :: 0 <= k < |r| ==> p(r[k]) && r[k] in xs
  {
    FilterFrom(p, [], xs)
  }

  /** The accumulator is only ever extended at its end. */
  lemma {:induction false} FilterFromAcc<T>(p: T -> bool, filtered: seq<T>, xs: seq<T>)
    ensures FilterFrom(p, filtered, xs) == filtered + Filter(p, xs)
    decreases |xs|
  {
    if xs != [] {
      var h := if p(xs[0]) then [xs[0]] else [];
      UnfoldFilter(p, filtered, xs);
      FilterFromAcc(p, filtered + h, xs[1..]);
      FilterFromAcc(p, h, xs[1..]);
      assert filtered + h + Filter(p, xs[1..]) == filtered + (h + Filter(p, xs[1..]));
    }
  }

  /** One step of `detail::filter`, with the accumulator written as a concatenation. */
  lemma UnfoldFilter<T>(p: T -> bool, filtered: seq<T>, xs: seq<T>)
    requires xs != []
    ensures FilterFrom(p, filtered, xs)
      == FilterFrom(p, filtered + (if p(xs[0]) then [xs[0]] else []), xs[1..])
    ensures Filter(p, xs) == FilterFrom(p, if p(xs[0]) then [xs[0]] else [], xs[1..])
  {
    assert filtered + [] == filtered;
    assert [] + [xs[0]] == [xs[0]];
  }

  /** `detail::filter` is the left fold that appends each element passing the
      predicate to the accumulator. */
  lemma {:induction false} FilterIsFoldL<T>(p: T -> bool, filtered: seq<T>, xs: seq<T>)
    ensures FilterFrom(p, filtered, xs) == FoldL((acc, x) => if p(x) then Append(x, acc) else acc, filtered, xs)
    decreases |xs|
  {
    if xs != [] {
      FilterIsFoldL(p, if p(xs[0]) then filtered + [xs[0]] else filtered, xs[1..]);
    }
  }

  /** Filtering distributes over concatenation; with `FilterSingleton` this
      says the result is the satisfying elements in their original order. */
  lemma {:induction false} FilterCat<T>(p: T -> bool, a: seq<T>, b: seq<T>)
    ensures Filter(p, Cat(a, b)) == Filter(p, a) + Filter(p, b)
    decreases |a|
  {
    if a != [] {
      var h := if p(a[0]) then [a[0]] else [];
      assert Cat(a, b)[0] == a[0] && Cat(a, b)[1..] == Cat(a[1..], b);
      UnfoldFilter(p, [], Cat(a, b));
      UnfoldFilter(p, [], a);
      FilterFromAcc(p, h, Cat(a[1..], b));
      FilterFromAcc(p, h, a[1..]);
      FilterCat(p, a[1..], b);
    } else {
      assert Cat(a, b) == b;
    }
  }

  /** A one-element list keeps its element exactly when the predicate holds. */
  lemma FilterSingleton<T>(p: T -> bool, x: T)
    ensures Filter(p, [x]) == if p(x) then [x] else []
  {
    assert [x][1..] == [];
  }

  /** Each value occurs in the result as often as in the input if it passes
      the predicate, and not at all otherwise. */
  lemma {:induction false} FilterCount<T>(p: T -> bool, xs: seq<T>, y: T)
    ensures multiset(Filter(p, xs))[y] == if p(y) then multiset(xs)[y] else 0
    decreases |xs|
  {
    if xs != [] {
      var h := if p(xs[0]) then [xs[0]] else [];
      UnfoldFilter(p, [], xs);
      FilterFromAcc(p, h, xs[1..]);
      FilterCount(p, xs[1..], y);
      assert xs == [xs[0]] + xs[1..];
      assert multiset(xs) == multiset([xs[0]]) + multiset(xs[1..]);
      assert multiset(Filter(p, xs)) == multiset(h) + multiset(Filter(p, xs[1..]));
    }
  }

  /** So a value is in the result iff it is in the input and passes. */
  lemma FilterMembers<T>(p: T -> bool, xs: seq<T>, y: T)
    ensures y in Filter(p, xs) <==> y in xs && p(y)
  {
    FilterCount(p, xs, y);
    assert y in Filter(p, xs) <==> multiset(Filter(p, xs))[y] > 0;
    assert y in xs <==> multiset(xs)[y] > 0;
  }

  /** Filtering leaves a list unchanged iff every element passes; in
      particular the always-true predicate is the identity. */
  lemma {:induction false} FilterIdentity<T>(p: T -> bool, xs: seq<T>)
    ensures Filter(p, xs) == xs <==> forall k :: 0 <= k < |xs| ==> p(xs[k])
    ensures Filter(x => true, xs) == xs
    decreases |xs|
  {
    if forall k :: 0 <= k < |xs| ==> p(xs[k]) {
      if xs != [] {
        assert forall k :: 0 <= k < |xs[1..]| ==> p(xs[1..][k]) by {
          forall k | 0 <= k < |xs[1..]| ensures p(xs[1..][k]) { assert xs[1..][k] == xs[k + 1]; }
        }
        FilterIdentity(p, xs[1..]);
        UnfoldFilter(p, [], xs);
        FilterFromAcc(p, [xs[0]], xs[1..]);
        assert xs == [xs[0]] + xs[1..];
      }
    } else {
      var k :| 0 <= k < |xs| && !p(xs[k]);
      FilterMembers(p, xs, xs[k]);
    }
    if xs != [] {
      FilterIdentity(x => true, xs[1..]);
      UnfoldFilter(x => true, [], xs);
      FilterFromAcc(x => true, [xs[0]], xs[1..]);
      assert xs == [xs[0]] + xs[1..];
    }
  }

  /** Filtering twice with the same predicate is filtering once. */
  lemma FilterIdempotent<T>(p: T -> bool, xs: seq<T>)
    ensures Filter(p, Filter(p, xs)) == Filter(p, xs)
  {
    var r := Filter(p, xs);
    FilterIdentity(p, r);
  }

  /** `any_of<Bs>` and `pack_any_of<Bs...>`: the left fold of `or_` from `false_`. */
  function AnyOf(bs: seq<bool>): bool
  {
    FoldL(Or, false, bs)
  }

  lemma {:induction false} FoldOr(seed: bool, bs: seq<bool>)
    ensures FoldL(Or, seed, bs) <==> seed || exists k :: 0 <= k < |bs| && bs[k]
    decreases |bs|
  {
    if bs != [] {
      FoldOr(Or(seed, bs[0]), bs[1..]);
      if exists k :: 0 <= k < |bs| && bs[k] {
        var k :| 0 <= k < |bs| && bs[k];
        if k > 0 { assert bs[1..][k - 1]; }
      }
      if exists k :: 0 <= k < |bs[1..]| && bs[1..][k] {
        var k :| 0 <= k < |bs[1..]| && bs[1..][k];
        assert bs[k + 1];
      }
    }
  }

  /** `any_of` holds iff some element of the list is true. */
  lemma AnyOfIff(bs: seq<bool>)
    ensures AnyOf(bs) <==> exists k :: 0 <= k < |bs| && bs[k]
  {
    FoldOr(false, bs);
  }

  /** The left fold of `and_` from any seed holds iff the seed and every
      element are true. */
  lemma {:induction false} FoldAndIff(seed: bool, bs: seq<bool>)
    ensures FoldL(And, seed, bs) <==> seed && forall k :: 0 <= k < |bs| ==> bs[k]
    decreases |bs|
  {
    if bs != [] {
      FoldAndIff(And(seed, bs[0]), bs[1..]);
      if forall k :: 0 <= k < |bs[1..]| ==> bs[1..][k] {
        forall k | 0 < k < |bs| ensures bs[k] { assert bs[1..][k - 1]; }
      }
    }
  }

  /** The reference concatenation of a list of lists, first list first. */
  function Concat<T>(seqs: seq<seq<T>>): seq<T>
    decreases |seqs|
  {
    if seqs == [] then [] else seqs[0] + Concat(seqs[1..])
  }

  lemma {:induction false} FoldCatConcat<T>(acc: seq<T>, seqs: seq<seq<T>>)
    ensures FoldL(Cat, acc, seqs) == acc + Concat(seqs)
    decreases |seqs|
  {
    if seqs != [] {
      FoldCatConcat(Cat(acc, seqs[0]), seqs[1..]);
      assert Cat(acc, seqs[0]) + Concat(seqs[1..]) == acc + (seqs[0] + Concat(seqs[1..]));
    }
  }

  /** `join<Seqs...>` with two or more lists: fold `cat` from the empty list
      of the first one's template over the pack of lists. A single argument is
      unwrapped instead, which `JoinOfOneAsWritten` models. */
  function Join<T>(seqs: seq<seq<T>>): (r: seq<T>)
    requires |seqs| >= 2
    ensures r == Concat(seqs)
  {
    FoldCatConcat([], seqs);
    FoldL(Cat, [], seqs)
  }

  /** Joining two lists is concatenating them, the first one first. */
  lemma JoinTwo<T>(a: seq<T>, b: seq<T>)
    ensures Join([a, b]) == a + b
  {
    assert [a, b][1..] == [b];
    assert [b][1..] == [];
    assert Concat([b]) == b + Concat([]);
  }

  /** `join<L>` with exactly one list as written: `apply_functor<L, L>` hits
      the one-argument specialisation of `functor::apply` and unwraps `L`, so
      the fold of `cat` runs over the ELEMENTS of `L`, which must themselves
      be lists. */
  function JoinOfOneAsWritten<U>(l: seq<seq<U>>): (r: seq<U>)
    ensures r == Concat(l)
  {
    FoldCatConcat([], l);
    FoldL(Cat, [], l)
  }

  /** As written, joining one list of two or more lists is the same as
      joining those lists given as separate arguments. */
  lemma JoinOfOneAsWrittenIsJoin<U>(l: seq<seq<U>>)
    requires |l| >= 2
    ensures JoinOfOneAsWritten(l) == Join(l)
  {
  }

  /** Concrete instance: `join<list<list<0, 1>, list<2>>>` flattens to
      three elements where the single list has two. */
  lemma JoinOfOneAsWrittenExample()
    ensures JoinOfOneAsWritten([[0, 1], [2]]) == [0, 1, 2]
  {
    var l: seq<seq<int>> := [[0, 1], [2]];
    assert l[1..] == [[2]] && l[1..][1..] == [];
  }
}
