/**
 Read-only constant arrays built from type lists (meta.hpp, lines 176-376):
 `SequenceToArray` stores the value of every element of a list in a static
 array; `PackToArray` does so for a pack of integral constants; and
 `StringToArray` for a list of characters followed by a `'\0'` terminator.

 A `const value_type*` is a `Pointer`: `nullptr`, or an offset into the one
 static array of the instantiation.
 */
module MetaArrays {
  import opened MetaFunctional

  datatype Pointer = Null | At(offset: nat)

  /** `p + k`: adding 0 to `nullptr` gives `nullptr`. */
  function Advance(p: Pointer, k: nat): Pointer
    requires p.Null? ==> k == 0
  {
    if p.Null? then Null else At(p.offset + k)
  }

  /** The static `array` member of a `SequenceToArray` instantiation. */
  datatype ConstArray<V> = ConstArray(elems: seq<V>)

  /** `size()` / `Bounds::size()`: `sizeof...(Tail) + 1`, or 0 for an empty list. */
  function Size<V>(a: ConstArray<V>): nat
  {
    if a.elems == [] then 0 else |a.elems[1..]| + 1
  }

  /** `get(i)` / `operator[]`. For a non-empty list an index at or past the
      size reads past the array, and for an empty list `get(i)` is ill-formed
      (`*` on a `void*`), so `i` must be below the size. */
  function Get<V>(a: ConstArray<V>, i: nat): V
    requires i < Size(a)
  {
    a.elems[i]
  }

  /** `begin()` / `cbegin()`: the start of the array, `nullptr` when empty. */
  function Begin<V>(a: ConstArray<V>): (p: Pointer)
    ensures p.Null? <==> Size(a) == 0
  {
    if a.elems == [] then Null else At(0)
  }

  /** `end()` / `cend()`: `array + size()`, `nullptr` when empty. */
  function End<V>(a: ConstArray<V>): (p: Pointer)
    ensures p.Null? <==> Size(a) == 0
  {
    if a.elems == [] then Null else At(Size(a))
  }

  /** Reading through a pointer into the array. */
  function Deref<V>(a: ConstArray<V>, p: Pointer): V
    requires p.At? && p.offset < Size(a)
  {
    a.elems[p.offset]
  }

  /** The bounds are consistent: `end() == begin() + size()`, and reading
      `begin() + i` is `get(i)`, for both specialisations. */
  lemma BoundsAgree<V>(a: ConstArray<V>, i: nat)
    ensures End(a) == Advance(Begin(a), Size(a))
    ensures i < Size(a) ==> Advance(Begin(a), i).At? && Advance(Begin(a), i).offset < Size(a)
    ensures i < Size(a) ==> Deref(a, Advance(Begin(a), i)) == Get(a, i)
  {
  }

  /** `SequenceToArray<Seq<Head, Tail...>, TypeToValue>`: the array
      `{ get<Head>(), get<Tail>()... }`; `SequenceToArray<Seq<>, TypeToValue>`
      has no storage. */
  function SequenceToArray<T, V>(toValue: T -> V, xs: seq<T>): (a: ConstArray<V>)
    ensures Size(a) == |xs|
    ensures forall i :: 0 <= i < |xs| ==> Get(a, i) == toValue(xs[i])
  {
    if xs == [] then ConstArray([])
    else
      var a := ConstArray([toValue(xs[0])] + Fmap(toValue, xs[1..]));
      assert forall i :: 1 <= i < |xs| ==> a.elems[i] == Fmap(toValue, xs[1..])[i - 1];
      a
  }

  /** `PackToArray<T, Values...>`: a list of integral constants read with
      `IntegralConstantToValue<T>`, which yields each constant's value. */
  function PackToArray<V>(values: seq<V>): (a: ConstArray<V>)
    ensures a.elems == values
  {
    var a := SequenceToArray(x => x, values);
    assert |a.elems| == |values|;
    a
  }

  /** `StringToArray<Seq<char_<Chars>...>>`: the characters and a `'\0'`. */
  function StringToArray(chars: seq<char>): (a: ConstArray<char>)
    ensures Size(a) == |chars| + 1
    ensures Get(a, |chars|) == '\0'
    ensures forall i :: 0 <= i < |chars| ==> Get(a, i) == chars[i]
  {
    PackToArray(chars + ['\0'])
  }

  /** `StringToArray::c_str()`: the start of the underlying array, which is
      never `nullptr` because the terminator is always stored. */
  function CStr(chars: seq<char>): (p: Pointer)
    ensures p == At(0)
    ensures Deref(StringToArray(chars), Advance(p, |chars|)) == '\0'
  {
    Begin(StringToArray(chars))
  }

  /** When the characters hold no `'\0'`, the first `'\0'` read from
      `c_str()` is at offset `|chars|`: the C string is exactly the list. */
  lemma CStrLength(chars: seq<char>, i: nat)
    requires '\0' !in chars
    requires i <= |chars|
    ensures Deref(StringToArray(chars), Advance(CStr(chars), i)) == '\0' <==> i == |chars|
  {
    var a := StringToArray(chars);
    if i < |chars| {
      assert Get(a, i) == chars[i];
    }
  }
}
