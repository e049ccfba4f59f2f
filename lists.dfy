/**
 Type lists and their structural operations (meta.hpp, lines 403-529).

 A C++ type list `Seq<Ts...>` is modelled as a Dafny `seq<T>`; a compile-time
 index (`std::size_t Index`) is a `nat`. A template instantiation that has no
 matching specialisation is a compile error in C++; here it is a `requires`.
 */
module MetaLists {

  /** The five views `detail::split` computes of a list cut at one index. */
  datatype Split<T> = Split(before: seq<T>, left: seq<T>, head: T, right: seq<T>, after: seq<T>)

  /** `detail::split<Seq<Left...>, Index, Seq<Head, Tail...>>`: move the head of
      `rest` onto `acc` until `index` reaches 0. There is no specialisation for
      an empty `rest`, so `index` must be a position of `rest`. */
  function SplitFrom<T>(acc: seq<T>, index: nat, rest: seq<T>): (r: Split<T>)
    requires index < |rest|
    ensures r.before == acc + rest[..index]
    ensures r.left == acc + rest[..index + 1]
    ensures r.head == rest[index]
    ensures r.right == rest[index..]
    ensures r.after == rest[index + 1..]
    decreases index
  {
    if index == 0 then
      Split(acc, acc + [rest[0]], rest[0], rest, rest[1..])
    else
      var r := SplitFrom(acc + [rest[0]], index - 1, rest[1..]);
      assert acc + [rest[0]] + rest[1..][..index - 1] == acc + rest[..index];
      assert acc + [rest[0]] + rest[1..][..index] == acc + rest[..index + 1];
      r
  }

  /** `split<Index, Seq<Ts...>>` and `pack_split<Index, Ts...>`: split with an
      empty accumulator. */
  function SplitAt<T>(index: nat, xs: seq<T>): (r: Split<T>)
    requires index < |xs|
    ensures |r.before| == index && |r.after| == |xs| - index - 1
    ensures r.left == r.before + [r.head] && r.right == [r.head] + r.after
  {
    var r := SplitFrom([], index, xs);
    assert [] + xs[..index] == xs[..index];
    r
  }

  /** The five views put the list back together on either side of the head. */
  lemma SplitRecomposes<T>(index: nat, xs: seq<T>)
    requires index < |xs|
    ensures SplitAt(index, xs).before + SplitAt(index, xs).right == xs
    ensures SplitAt(index, xs).left + SplitAt(index, xs).after == xs
    ensures SplitAt(index, xs).head == xs[index]
  {
    var s := SplitAt(index, xs);
    assert s.before == xs[..index] && s.right == xs[index..];
    assert xs == xs[..index] + xs[index..];
    assert s.left == xs[..index + 1] && s.after == xs[index + 1..];
    assert xs == xs[..index + 1] + xs[index + 1..];
  }

  /** `head_t` / `pack_head_t`: the head view of a split at 0. */
  function Head<T>(xs: seq<T>): (h: T)
    requires |xs| > 0
    ensures h == xs[0]
  {
    SplitAt(0, xs).head
  }

  /** `tail_t` / `pack_tail_t`: the after view of a split at 0. */
  function Tail<T>(xs: seq<T>): (t: seq<T>)
    requires |xs| > 0
    ensures [Head(xs)] + t == xs
  {
    assert xs == [xs[0]] + xs[1..];
    SplitAt(0, xs).after
  }

  /** `cat<Seq<Lhs...>, Seq<Rhs...>>`. */
  function Cat<T>(lhs: seq<T>, rhs: seq<T>): (r: seq<T>)
    ensures |r| == |lhs| + |rhs|
    ensures r[..|lhs|] == lhs && r[|lhs|..] == rhs
  {
    lhs + rhs
  }

  /** `prepend<T, Seq<Ts...>>` and `pack_prepend_t<T, Ts...>`. */
  function Prepend<T>(t: T, xs: seq<T>): (r: seq<T>)
    ensures |r| == |xs| + 1 && r[0] == t && r[1..] == xs
  {
    [t] + xs
  }

  /** `append<T, Seq<Ts...>>` and `pack_append_t<T, Ts...>`: the element comes
      first, the list second. */
  function Append<T>(t: T, xs: seq<T>): (r: seq<T>)
    ensures |r| == |xs| + 1 && r[..|xs|] == xs && r[|xs|] == t
  {
    xs + [t]
  }

  /** `append_t<T, Seq>` forwards to `append<Seq, T>`: its FIRST argument is the
      list and its second the element appended to it. */
  function AppendT<T>(list: seq<T>, t: T): (r: seq<T>)
    ensures |r| == |list| + 1 && r[..|list|] == list && r[|list|] == t
  {
    Append(t, list)
  }

  /** Prepending then taking the head and tail gives back the parts. */
  lemma PrependHeadTail<T>(t: T, xs: seq<T>)
    ensures Head(Prepend(t, xs)) == t
    ensures Tail(Prepend(t, xs)) == xs
  {
    var r := Prepend(t, xs);
    assert [Head(r)] + Tail(r) == r;
    assert Tail(r) == r[1..];
  }

  /** Appending puts the element at the old size, and removing it restores the list. */
  lemma AppendThenRemove<T>(t: T, xs: seq<T>)
    ensures SplitAt(|xs|, Append(t, xs)).head == t
    ensures Remove(|xs|, Append(t, xs)) == xs
  {
    var r := Append(t, xs);
    assert r[..|xs|] == xs;
  }

  /** `remove_t<T, Index, Seq>` and `pack_remove_t<T, Index, Ts...>`: the before
      and after views joined (their leading `T` parameter is unused). */
  function Remove<T>(index: nat, xs: seq<T>): (r: seq<T>)
    requires index < |xs|
    ensures |r| == |xs| - 1
    ensures forall k :: 0 <= k < index ==> r[k] == xs[k]
    ensures forall k :: index <= k < |r| ==> r[k] == xs[k + 1]
  {
    var s := SplitAt(index, xs);
    Cat(s.before, s.after)
  }

  /** `remove_t` at `index` is exactly the list without that one position. */
  lemma RemoveIsSlice<T>(index: nat, xs: seq<T>)
    requires index < |xs|
    ensures Remove(index, xs) == xs[..index] + xs[index + 1..]
  {
    var r := Remove(index, xs);
    var e := xs[..index] + xs[index + 1..];
    assert |r| == |e|;
    forall k | 0 <= k < |r| ensures r[k] == e[k] {
      if k < index { assert e[k] == xs[k]; } else { assert e[k] == xs[k + 1]; }
    }
  }

  /** `insert_t<T, Index, Seq>` as written: the left view (which ends with the
      element at `index`) with `t` appended, then the right view (which starts
      with that same element). */
  function InsertAsWritten<T>(t: T, index: nat, xs: seq<T>): (r: seq<T>)
    requires index < |xs|
    ensures |r| == |xs| + 2
  {
    var s := SplitAt(index, xs);
    Cat(AppendT(s.left, t), s.right)
  }

  /** The element at `index` occurs twice around `t`, so removing the inserted
      position does not restore the list. */
  lemma InsertAsWrittenDuplicates<T>(t: T, index: nat, xs: seq<T>)
    requires index < |xs|
    ensures InsertAsWritten(t, index, xs) == xs[..index + 1] + [t] + xs[index..]
    ensures InsertAsWritten(t, index, xs)[index] == xs[index]
    ensures InsertAsWritten(t, index, xs)[index + 2] == xs[index]
    ensures Remove(index + 1, InsertAsWritten(t, index, xs)) != xs
  {
    var s := SplitAt(index, xs);
    SplitRecomposes(index, xs);
    assert s.left == xs[..index + 1] && s.right == xs[index..];
    var r := InsertAsWritten(t, index, xs);
    assert r == xs[..index + 1] + [t] + xs[index..];
    assert |Remove(index + 1, r)| == |xs| + 1;
  }

  /** Concrete instance: inserting 9 at 0 into [1] yields [1, 9, 1]. */
  lemma InsertAsWrittenExample()
    ensures InsertAsWritten(9, 0, [1]) == [1, 9, 1]
  {
    InsertAsWrittenDuplicates(9, 0, [1]);
  }

  /** Insertion as evidently intended: `t` lands at `index` and everything from
      `index` on moves one place right. */
  function Insert<T>(t: T, index: nat, xs: seq<T>): (r: seq<T>)
    requires index < |xs|
    ensures |r| == |xs| + 1
    ensures r[index] == t
    ensures forall k :: 0 <= k < index ==> r[k] == xs[k]
    ensures forall k :: index < k < |r| ==> r[k] == xs[k - 1]
  {
    var s := SplitAt(index, xs);
    SplitRecomposes(index, xs);
    Cat(AppendT(s.before, t), s.right)
  }

  /** Removing what `Insert` put in gives back the original list. */
  lemma RemoveAfterInsert<T>(t: T, index: nat, xs: seq<T>)
    requires index < |xs|
    ensures Remove(index, Insert(t, index, xs)) == xs
  {
    var r := Remove(index, Insert(t, index, xs));
    assert |r| == |xs|;
    forall k | 0 <= k < |xs| ensures r[k] == xs[k] {
      if k >= index { assert r[k] == Insert(t, index, xs)[k + 1]; }
    }
  }

  /** An entry of a list built by `pack_insert_t`: either an element of the
      pack or a whole list nested as a single element. */
  datatype Entry<T> = Elem(value: T) | Nested(items: seq<T>)

  function Elems<T>(xs: seq<T>): (r: seq<Entry<T>>)
    ensures |r| == |xs| && forall k :: 0 <= k < |xs| ==> r[k] == Elem(xs[k])
  {
    seq(|xs|, k requires 0 <= k < |xs| => Elem(xs[k]))
  }

  /** `pack_insert_t<T, Index, Ts...>` as written: `pack_append_t` is handed the
      left list first and `t` second, so it yields `list<T, list<left...>>`,
      which is then concatenated with the right view. */
  function PackInsertAsWritten<T>(t: T, index: nat, ts: seq<T>): (r: seq<Entry<T>>)
    requires index < |ts|
    ensures |r| == |ts| - index + 2
  {
    var s := SplitAt(index, ts);
    [Elem(t), Nested(s.left)] + Elems(s.right)
  }

  /** The result starts with `t`, then nests the left part as ONE entry: it is
      not the pack with `t` inserted, whatever the index. */
  lemma PackInsertAsWrittenNests<T>(t: T, index: nat, ts: seq<T>)
    requires index < |ts|
    ensures PackInsertAsWritten(t, index, ts)[0] == Elem(t)
    ensures PackInsertAsWritten(t, index, ts)[1] == Nested(ts[..index + 1])
    ensures PackInsertAsWritten(t, index, ts) == [Elem(t), Nested(ts[..index + 1])] + Elems(ts[index..])
    ensures PackInsertAsWritten(t, index, ts) != Elems(Insert(t, index, ts))
  {
    var s := SplitAt(index, ts);
    SplitRecomposes(index, ts);
    var r := PackInsertAsWritten(t, index, ts);
    var e := Elems(Insert(t, index, ts));
    assert r[1].Nested?;
    assert e[1].Elem?;
  }

  /** Concrete instance: `pack_insert_t<X, 0, A>` is `list<X, list<A>, A>`. */
  lemma PackInsertAsWrittenExample()
    ensures PackInsertAsWritten(9, 0, [1]) == [Elem(9), Nested([1]), Elem(1)]
  {
    PackInsertAsWrittenNests(9, 0, [1]);
  }
}
