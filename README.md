# siplasplas compile-time type-list algebra, in Dafny

This project models the metaprogramming toolkit of siplasplas,
`include/siplasplas/utility/meta.hpp`. The toolkit is a library of C++ template
specialisations over type lists (`list<Ts...>`, or any variadic template
`Seq<Ts...>`). It splits a list at an index into the views before / left /
head / right / after. It concatenates, prepends, appends, inserts and removes.
It maps (`fmap`), filters and folds left and right over lists. It combines
integral constants with `and_`, `or_` and `add_`, and defines `any_of` on
`or_` and `join` on `cat`, both as left folds. It generates the index list
`[0, N)` by divide and conquer. It turns a list into a read-only static array (`SequenceToArray`,
`PackToArray`, `StringToArray`). Finally, it exposes the keys, values and
pairs of a compile-time `map`.

The recursive templates `detail::split`, `detail::filter`, `foldl` and
`foldr` each have a base-case specialisation and a step specialisation.
`detail::make_index_sequence` has its step in the primary template and two
base-case specialisations, for 0 and 1. This model writes each of them as a
recursive Dafny function. The other operations (`cat`, `prepend`, `append`, `fmap`, `and_`,
`or_`, `add_`, `map`) are single non-recursive definitions, and so are their
Dafny functions. Throughout, values stand for types:
- a type list is a `seq<T>`;
- an integral constant is a `bool` or a `nat`;
- a metafunction class (a type with a nested `apply`) is a Dafny function value;
- a `const value_type*` into a static array is a `Pointer` (`Null`, or an offset into the array).

A template instantiation with no matching specialisation fails to compile.
Here it becomes a `requires`: splitting at an index past the end, or `join`
with no argument at all. `Join` requires two or more lists because the
one-argument `join` takes a different path, modelled by `JoinOfOneAsWritten`.
`get(i)` is a different case. For the empty list it
is ill-formed (`*` applied to a `void*`), so any call fails to compile. For a
non-empty list, `i >= size()` compiles but reads past the array. The
`requires i < Size(a)` on `Get` excludes both.

Modules, one per part of the header:
- `MetaLists` (`lists.dfy`): `detail::split`, `split`, `pack_split` and their
  accessors, `cat`, `prepend`, `append`, `append_t`, `insert_t`,
  `pack_insert_t` and `remove_t`.
- `MetaFunctional` (`functional.dfy`): `and_`, `or_`, `add_`, `fmap`,
  `detail::filter` and `filter`, `foldl`, `foldr`, `any_of` and `join`.
- `MetaIndex` (`index_sequence.dfy`): `detail::make_index_sequence`,
  `make_index_sequence`, `make_index_sequence_for` and `to_index_sequence`.
- `MetaArrays` (`arrays.dfy`): `SequenceToArray` (both specialisations),
  `IntegralConstantToValue`, `PackToArray`, `StringToArray` and `c_str`.
- `MetaMap` (`typemap.dfy`): `pair`, `map`, `keys_t`, `values_t` and `pairs_t`.

The `pack_*` forms behave like the list forms over `list<Ts...>`, except
`pack_insert_t`. The model gives them one definition each. `pack_insert_t`
has its own member (see Findings).

What the code does, followed over what names suggest:
- `append_t<T, Seq>` forwards to `append<Seq, T>`. Its first argument is the
  list and its second is the element (`AppendT`). Its one use, `insert_t`,
  passes its arguments in that order.
- `remove_t` and `pack_remove_t` take a leading type parameter `T` that they
  never use. `Remove` leaves it out.
- `join` with a single argument unwraps it, so `join<list<list<0, 1>, list<2>>>`
  flattens a list of lists, as `join` does in Haskell's vocabulary
  (`JoinOfOneAsWritten`). A single plain list, such as `join<list<int>>`, does
  not compile.
- `make_index_sequence` computes the lower half with separate odd and even
  branches. `LowerHalf` keeps both branches and proves that they compute `N / 2`.
- `and_` and `or_` are modelled by `And` and `Or`. Their meaning over a list is
  stated by lemmas about left folds of them: `FoldAndIff` and `FoldOr`, and
  `AnyOfIff` for `any_of`, the one fold the header builds (on `or_`). `add_` is `Add`.
  It shifts the upper half in `MakeIndexSequence`, whose contract states the
  combined result.

## Model

| member | source | states |
|---|---|---|
| `MetaLists.SplitFrom` | include/siplasplas/utility/meta.hpp:424-449 | moving heads onto the accumulator until the index reaches 0 gives before = acc + rest[..i], left = acc + rest[..i+1], head = rest[i], right = rest[i..], after = rest[i+1..]; only defined for i < len(rest) |
| `MetaLists.SplitAt` | include/siplasplas/utility/meta.hpp:469-481 | splitting at i has len(before) = i and len(after) = len(xs) - i - 1; left is before plus the head and right is the head plus after |
| `MetaLists.SplitRecomposes` | include/siplasplas/utility/meta.hpp:482-491 | before + right == xs == left + after, and the head is xs[i] |
| `MetaLists.Head` | include/siplasplas/utility/meta.hpp:492-493 | head_t is the first element |
| `MetaLists.Tail` | include/siplasplas/utility/meta.hpp:494-495 | the head followed by tail_t rebuilds the list |
| `MetaLists.Cat` | include/siplasplas/utility/meta.hpp:403-414 | the result has length len(a) + len(b), starts with a and ends with b |
| `MetaLists.Prepend` | include/siplasplas/utility/meta.hpp:507-513 | the element comes first and the list follows unchanged |
| `MetaLists.PrependHeadTail` | include/siplasplas/utility/meta.hpp:492-513 | head_t and tail_t of a prepend give back the element and the list |
| `MetaLists.Append` | include/siplasplas/utility/meta.hpp:514-520 | the list is kept unchanged and the element is added at index len(xs) |
| `MetaLists.AppendT` | include/siplasplas/utility/meta.hpp:524-525 | with its arguments swapped, append_t keeps its FIRST argument as the list and adds the second at its end |
| `MetaLists.AppendThenRemove` | include/siplasplas/utility/meta.hpp:514-529 | after an append, the element sits at the old size and remove_t there restores the list |
| `MetaLists.Remove` | include/siplasplas/utility/meta.hpp:528-529 | the length drops by one; elements before i keep their place and later ones shift left by one |
| `MetaLists.RemoveIsSlice` | include/siplasplas/utility/meta.hpp:504-505 | remove_t / pack_remove_t at i equal xs[..i] + xs[i+1..] |
| `MetaLists.InsertAsWritten` | include/siplasplas/utility/meta.hpp:526-527 | insert_t as written grows the list by two |
| `MetaLists.InsertAsWrittenDuplicates` | include/siplasplas/utility/meta.hpp:526-527 | insert_t as written yields xs[..i+1] + [t] + xs[i..]: the element at i appears on both sides of t, and no removal restores xs |
| `MetaLists.InsertAsWrittenExample` | include/siplasplas/utility/meta.hpp:526-527 | inserting 9 at 0 into [1] yields [1, 9, 1] |
| `MetaLists.Insert` | include/siplasplas/utility/meta.hpp:526-527 | corrected insertion: length + 1, t at index i, earlier elements in place, later ones shifted right by one |
| `MetaLists.RemoveAfterInsert` | include/siplasplas/utility/meta.hpp:526-529 | remove_t at i undoes the corrected insert at i |
| `MetaLists.PackInsertAsWritten` | include/siplasplas/utility/meta.hpp:502-503 | pack_insert_t as written has len(ts) - i + 2 entries; its full content is stated by PackInsertAsWrittenNests |
| `MetaLists.PackInsertAsWrittenNests` | include/siplasplas/utility/meta.hpp:498-503 | pack_insert_t as written is exactly [t, the left view nested as one entry] followed by the right view ts[i..], so it never equals the pack with t inserted |
| `MetaLists.PackInsertAsWrittenExample` | include/siplasplas/utility/meta.hpp:502-503 | pack_insert_t of 9 at 0 into the pack [1] is [9, nested [1], 1] |
| `MetaFunctional.Fmap` | include/siplasplas/utility/meta.hpp:576-589 | fmap keeps the length and applies the function to each element in place |
| `MetaFunctional.FmapCat` | include/siplasplas/utility/meta.hpp:576-589 | fmap distributes over cat |
| `MetaFunctional.FmapFunctorLaws` | include/siplasplas/utility/meta.hpp:585-589 | fmap of a composition is the composition of the fmaps, and fmap of the identity is the identity |
| `MetaFunctional.FmapIsFoldR` | include/siplasplas/utility/meta.hpp:585-589 | fmap equals the right fold that prepends each mapped element |
| `MetaFunctional.FoldL` | include/siplasplas/utility/meta.hpp:623-643 | foldl's two specialisations; its meaning is stated by FoldLCat, FoldLLast, FilterIsFoldL, FoldOr and FoldAndIff |
| `MetaFunctional.FoldR` | include/siplasplas/utility/meta.hpp:645-663 | foldr's two specialisations; its meaning is stated by FoldRCat and FmapIsFoldR |
| `MetaFunctional.And` | include/siplasplas/utility/meta.hpp:120-133 | and_ on two constants; its meaning over a list is stated by FoldAndIff |
| `MetaFunctional.Or` | include/siplasplas/utility/meta.hpp:135-148 | or_ on two constants; its meaning over a list is stated by FoldOr and AnyOfIff |
| `MetaFunctional.Add` | include/siplasplas/utility/meta.hpp:150-163 | add_ on two size constants; its use as the upper-half shift is stated by MakeIndexSequence |
| `MetaFunctional.AnyOf` | include/siplasplas/utility/meta.hpp:693-700 | any_of is foldl of or_ from false_; its meaning is stated by AnyOfIff |
| `MetaFunctional.FoldLCat` | include/siplasplas/utility/meta.hpp:623-643 | foldl over a ++ b is foldl over b seeded with foldl over a |
| `MetaFunctional.FoldLLast` | include/siplasplas/utility/meta.hpp:623-643 | the last step of foldl applies the function to the result so far and the last element |
| `MetaFunctional.FoldRCat` | include/siplasplas/utility/meta.hpp:645-663 | foldr over a ++ b is foldr over a seeded with foldr over b |
| `MetaFunctional.FilterFrom` | include/siplasplas/utility/meta.hpp:593-620 | the accumulator stays as a prefix; what follows has at most len(xs) elements, each passing the predicate and taken from xs |
| `MetaFunctional.Filter` | include/siplasplas/utility/meta.hpp:684-691 | the result is no longer than the input, and every element passes and comes from the input |
| `MetaFunctional.FilterFromAcc` | include/siplasplas/utility/meta.hpp:593-620 | detail::filter from any accumulator is that accumulator followed by filter from empty |
| `MetaFunctional.FilterIsFoldL` | include/siplasplas/utility/meta.hpp:593-620 | detail::filter is the left fold that appends each passing element |
| `MetaFunctional.FilterCat` | include/siplasplas/utility/meta.hpp:684-687 | filter distributes over cat, so order is preserved |
| `MetaFunctional.FilterSingleton` | include/siplasplas/utility/meta.hpp:596-613 | a one-element list keeps its element exactly when the predicate holds |
| `MetaFunctional.FilterCount` | include/siplasplas/utility/meta.hpp:684-687 | each passing value occurs as often as in the input; failing values do not occur |
| `MetaFunctional.FilterMembers` | include/siplasplas/utility/meta.hpp:684-687 | y is in the result iff y is in the input and passes |
| `MetaFunctional.FilterIdentity` | include/siplasplas/utility/meta.hpp:684-691 | filter leaves the list unchanged iff every element passes; the always-true predicate is the identity |
| `MetaFunctional.FilterIdempotent` | include/siplasplas/utility/meta.hpp:684-687 | filtering twice with the same predicate is filtering once |
| `MetaFunctional.FoldOr` | include/siplasplas/utility/meta.hpp:135-148 | foldl of or_ from a seed is true iff the seed or some element is true |
| `MetaFunctional.AnyOfIff` | include/siplasplas/utility/meta.hpp:693-700 | any_of is true iff some element of the list is true |
| `MetaFunctional.FoldAndIff` | include/siplasplas/utility/meta.hpp:120-133 | foldl of and_ from a seed is true iff the seed and every element are true |
| `MetaFunctional.FoldCatConcat` | include/siplasplas/utility/meta.hpp:711-712 | folding cat over lists from an accumulator gives the accumulator followed by all the lists in order |
| `MetaFunctional.Join` | include/siplasplas/utility/meta.hpp:711-714 | join of two or more lists is their concatenation in order; a single list of lists given alone is flattened by JoinOfOneAsWritten instead |
| `MetaFunctional.JoinTwo` | include/siplasplas/utility/meta.hpp:711-714 | join of two lists is the first followed by the second |
| `MetaFunctional.JoinOfOneAsWritten` | include/siplasplas/utility/meta.hpp:390-394 | join with one argument as written concatenates the ELEMENTS of that list, because functor's one-argument apply unwraps it |
| `MetaFunctional.JoinOfOneAsWrittenIsJoin` | include/siplasplas/utility/meta.hpp:711-714 | as written, join of one list of two or more lists equals join of those lists passed separately |
| `MetaFunctional.JoinOfOneAsWrittenExample` | include/siplasplas/utility/meta.hpp:711-712 | join of the single list [[0, 1], [2]] flattens it to [0, 1, 2], three elements where the list has two |
| `MetaIndex.LowerHalf` | include/siplasplas/utility/meta.hpp:721-722 | both branches of n compute N / 2; for N >= 2 both halves n and N - n are between 1 and N - 1, so the recursion terminates |
| `MetaIndex.MakeIndexSequence` | include/siplasplas/utility/meta.hpp:716-753 | make_index_sequence of N has length N and element k equal to k |
| `MetaIndex.MakeIndexSequenceStep` | include/siplasplas/utility/meta.hpp:716-749 | the index list of N + 1 is that of N with N appended |
| `MetaIndex.ToIndexSequence` | include/siplasplas/utility/meta.hpp:754-764 | one index per element, element k equal to k and below the length |
| `MetaIndex.IndicesAddressElements` | include/siplasplas/utility/meta.hpp:756-764 | looking up each index of to_index_sequence in the list reads the list back in order |
| `MetaArrays.Size` | include/siplasplas/utility/meta.hpp:198-229 | size() / Bounds::size(): sizeof...(Tail) + 1, or 0 for the empty specialisation (281-284); SequenceToArray and StringToArray state its value |
| `MetaArrays.Get` | include/siplasplas/utility/meta.hpp:188-191 | get(i) / operator[] (231-234) read array[i]; requires i < size(), which excludes the read past the array and the empty specialisation's get(i) at 274-277, which is ill-formed and fails to compile when called; BoundsAgree and SequenceToArray state its value |
| `MetaArrays.Begin` | include/siplasplas/utility/meta.hpp:205-294 | begin() is the array itself for a non-empty list (Bounds::begin at 205-208, the member begin() at 236-239) and nullptr for the empty specialisation (279-294): nullptr exactly for the empty array |
| `MetaArrays.End` | include/siplasplas/utility/meta.hpp:210-213 | end() is nullptr exactly for the empty array |
| `MetaArrays.BoundsAgree` | include/siplasplas/utility/meta.hpp:198-224 | end() == begin() + size() in both specialisations, and reading begin() + i is get(i) |
| `MetaArrays.SequenceToArray` | include/siplasplas/utility/meta.hpp:180-264 | size() == len(list) and get(i) is the value of list[i] |
| `MetaArrays.PackToArray` | include/siplasplas/utility/meta.hpp:343-359 | the stored array is exactly the pack of values |
| `MetaArrays.StringToArray` | include/siplasplas/utility/meta.hpp:361-373 | size is len(chars) + 1, the characters come first and the last element is '\0' |
| `MetaArrays.CStr` | include/siplasplas/utility/meta.hpp:369-372 | c_str() is the start of the array, never nullptr, and the terminator is at offset len(chars) |
| `MetaArrays.CStrLength` | include/siplasplas/utility/meta.hpp:364-372 | if the characters hold no '\0', the first '\0' read from c_str() is at len(chars) |
| `MetaMap.Keys` | include/siplasplas/utility/meta.hpp:553-568 | keys_t lists the key of every pair, in order |
| `MetaMap.Values` | include/siplasplas/utility/meta.hpp:553-570 | values_t lists the value of every pair, in order |
| `MetaMap.Pairs` | include/siplasplas/utility/meta.hpp:558-572 | pairs_t is the map's list of pairs; KeysValuesPairUp relates it to keys_t and values_t |
| `MetaMap.KeysValuesPairUp` | include/siplasplas/utility/meta.hpp:553-572 | keys and values are parallel lists of equal length; pairing them up position by position gives pairs_t |
| `MetaMap.PairUpKeysValues` | include/siplasplas/utility/meta.hpp:532-558 | a map declared from parallel keys and values has exactly those keys and values |

## Findings

| source | as written | input that shows it | evidently intended | confidence | as-written member | corrected member |
|---|---|---|---|---|---|---|
| include/siplasplas/utility/meta.hpp:526-527 | `insert_t` joins the left view, which already ends with the element at `Index`, with the right view, which starts with it again | `insert_t<X, 0, list<A>>` gives `list<A, X, A>` | `list<X, A>`: t placed at `Index`, length + 1 | high, not executed | `MetaLists.InsertAsWrittenDuplicates` | `MetaLists.Insert` |
| include/siplasplas/utility/meta.hpp:502-503 | `pack_insert_t` calls `pack_append_t<left-list, T>`, which builds `list<T, left-list>`, so the left part is nested as one element after `T` | `pack_insert_t<X, 0, A>` gives `list<X, list<A>, A>` | `list<X, A>` | high, not executed | `MetaLists.PackInsertAsWrittenNests` | `MetaLists.Insert` |

## Left out

- The metatype registry (`cpp::MetaTypeSystem`), `ctti` type identities and static enum reflection (`static_reflection::Enum`): the example programs call them, but their headers are not part of this model.
- `zip` and `bind` (meta.hpp:766-781): empty stubs with no behaviour.
- `map::at_key` (meta.hpp:560-564): it ignores its `Key` parameter and depends on C++ overload resolution through `inherit`. Only `keys`, `values` and `pairs` are modelled.
- `assert`, `void_t`, `is_integral`, `value`, `defer`, `decay_t`, `identity`, `type_t`, `apply_t`, `sequence_apply` and the fixed-width integral aliases (meta.hpp:13-118): C++ type-system plumbing. Dafny's types already enforce what they check.
- `functor` and `apply_functor` (meta.hpp:378-401): they only rebuild a list with another template. The model has one list kind. Their one observable effect, on single-argument `join`, is modelled in `JoinOfOneAsWritten`.
- The template template parameter `Seq`: the model uses a single list kind, so a `cat` of lists built from two different templates (a compile error) is not represented.
- Folds whose accumulator changes type from step to step: `FoldL` and `FoldR` use one seed type.
- `SequenceToArray::get()` returning a `ConstArrayView`: `array_view.hpp` is not part of this model.
- The empty `SequenceToArray::get(i)` (meta.hpp:274-277) applies `*` to a `void*`, so any call of it fails to compile: modelled as the precondition `i < Size(a)`, which also excludes the out-of-bounds read of the non-empty `get(i)`.
- Join: `join` with one argument is modelled by `JoinOfOneAsWritten`; a plain list there, such as `join<list<int>>`, does not compile.
- The second definition of the `any_of` aliases (meta.hpp:702-709): it repeats the first one.
- `add_` and the index lists use unbounded `nat`. `std::size_t` wrap-around is not modelled because indices never come near it.
- `StringToArray` stores C++ `char`, a single byte; the model uses Dafny's `char`, a Unicode scalar value. Only the characters' identity and the `'\0'` terminator matter here, not their encoding or width.
- And, Or, AnyOf: `and_`, `or_` and so `any_of` accept any integral constant, with nonzero read as true; the model takes `bool`, so a list of non-boolean constants must first be mapped to their truth values.
- `append_t` given an element first and a list second (the order its name suggests) does not compile. The model has no such case; `AppendT` takes the list first.
