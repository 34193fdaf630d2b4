/** The ConvertVariant overload family: a VARIANT becomes an optional typed value,
    and every failure of the underlying library is absorbed into an absent result. */
module Conversion {
  import opened Wrappers
  import opened Variants

  /** The scalar overload: `static_cast<T>(_variant_t(variant))` inside try/catch.
      `cast` is that library coercion; it either returns or throws. */
  function ConvertScalar<T>(v: Variant, cast: Variant -> Attempt<T>): (r: Option<T>)
    ensures r.None? <==> cast(v).Threw?
    ensures r.Some? ==> r.value == cast(v).value
  {
    match cast(v)
    case Returned(x) => Some(x)
    case Threw => None
  }

  /** The std::string / std::wstring overload: first the scalar overload to `_bstr_t`
      (`toBstr`), then, only if that is present, the re-encoding of its characters into
      the requested string type (`reencode`). */
  function ConvertString<S>(v: Variant, toBstr: Variant -> Attempt<Text>, reencode: Text -> S): (r: Option<S>)
    ensures r.Some? <==> ConvertScalar(v, toBstr).Some?
    ensures r.Some? ==> r.value == reencode(toBstr(v).value)
  {
    match ConvertScalar(v, toBstr)
    case Some(t) => Some(reencode(t))
    case None => None
  }

  function MapOption<A, B>(o: Option<A>, f: A -> B): (r: Option<B>)
    ensures r.Some? <==> o.Some?
    ensures r.Some? ==> r.value == f(o.value)
  {
    match o
    case Some(x) => Some(f(x))
    case None => None
  }

  /** The narrow and the wide string of one variant come from the same intermediate
      `_bstr_t`: both are present or both absent. When the narrow string is a re-encoding
      `narrow` of the wide one (`wide`, which stops at an embedded NUL), the narrow result
      is that re-encoding of the wide result. */
  lemma NarrowAndWideAgree<S>(v: Variant, toBstr: Variant -> Attempt<Text>, wide: Text -> Text, narrow: Text -> S)
    ensures ConvertString(v, toBstr, t => narrow(wide(t))) == MapOption(ConvertString(v, toBstr, wide), narrow)
    ensures ConvertString(v, toBstr, narrow).Some? <==> ConvertString(v, toBstr, wide).Some?
  {
  }

  /** The vector overload. `attach` is `CComSafeArray<E>::Attach(variant.parray)` followed
      by the typed view of its elements; if it throws the result is absent. Otherwise every
      element is copied, by index and in order, and the array is detached without being
      freed: the method changes no state. */
  method ConvertVector<E>(v: Variant, attach: Variant -> Attempt<seq<E>>) returns (r: Option<seq<E>>)
    ensures attach(v).Threw? ==> r == None
    ensures attach(v).Returned? ==> r.Some? && |r.value| == |attach(v).value|
    ensures attach(v).Returned? ==> forall i :: 0 <= i < |r.value| ==> r.value[i] == attach(v).value[i]
  {
    var safeArray: seq<E>;
    match attach(v)
    case Threw => return None;
    case Returned(view) => safeArray := view;
    var result: seq<E> := [];
    var i := 0;
    while i < |safeArray|
      invariant 0 <= i <= |safeArray| && |result| == i
      invariant forall k :: 0 <= k < i ==> result[k] == safeArray[k]
    {
      result := result + [safeArray[i]];
      i := i + 1;
    }
    return Some(result);
  }

  /** `CComSafeArray<BSTR>::Attach`: succeeds exactly on a SAFEARRAY of BSTRs, whose
      elements it views as the raw handles (no copy is made). A scalar array throws on the
      element-type check and a non-array variant throws on the null array pointer. */
  function AttachBstr(v: Variant): (r: Attempt<seq<Handle>>)
    ensures r.Returned? <==> v.TextArray?
    ensures r.Returned? ==> r.value == Owned(v)
  {
    match v
    case TextArray(hs) => Returned(hs)
    case _ => Threw
  }

  /** `static_cast<S>(_bstr_t(element))` for each handle, in order. */
  function EncodeAll<S>(hs: seq<Handle>, live: map<Handle, Text>, reencode: Text -> S): (r: seq<S>)
    requires forall h :: h in hs ==> h in live
    ensures |r| == |hs|
    ensures forall i :: 0 <= i < |hs| ==> r[i] == reencode(live[hs[i]])
  {
    if hs == [] then [] else [reencode(live[hs[0]])] + EncodeAll(hs[1..], live, reencode)
  }

  /** What the string-vector overload returns, given the BSTR contents when it is called:
      absent exactly when the BSTR-vector step is absent, otherwise one string per handle. */
  function StringVectorOf<S>(v: Variant, live: map<Handle, Text>, reencode: Text -> S): (r: Option<seq<S>>)
    requires forall h :: h in Owned(v) ==> h in live
    ensures r.None? <==> AttachBstr(v).Threw?
    ensures r.Some? ==> |r.value| == |v.handles|
    ensures r.Some? ==> forall i :: 0 <= i < |r.value| ==> r.value[i] == reencode(live[v.handles[i]])
  {
    match AttachBstr(v)
    case Threw => None
    case Returned(hs) => Some(EncodeAll(hs, live, reencode))
  }

  /** The handles the string-vector overload passes to SysFreeString, in order. */
  function ConversionFrees(v: Variant): (hs: seq<Handle>)
    ensures AttachBstr(v).Threw? ==> hs == []
    ensures AttachBstr(v).Returned? ==> hs == AttachBstr(v).value
  {
    if v.TextArray? then v.handles else []
  }

  /** The vector-of-string overload as written: the BSTR-vector step, then for each handle in
      order a conversion of its characters followed by SysFreeString on that handle. Each
      handle is read while still live and freed exactly once, after its conversion. */
  method ConvertStringVector<S>(v: Variant, heap: BstrHeap, reencode: Text -> S) returns (r: Option<seq<S>>)
    requires heap.Owns(v)
    modifies heap
    ensures r == StringVectorOf(v, old(heap.live), reencode)
    ensures heap.freed == old(heap.freed) + ConversionFrees(v)
    ensures heap.live == old(heap.live) - Elements(ConversionFrees(v)) && heap.next == old(heap.next)
    ensures old(heap.Valid()) ==> heap.Valid()
  {
    var intm := ConvertVector(v, AttachBstr);
    if intm.None? {
      return None;
    }
    var hs := intm.value;
    assert hs == v.handles;
    ghost var live0, freed0 := heap.live, heap.freed;
    var result: seq<S> := [];
    var i := 0;
    while i < |hs|
      invariant 0 <= i <= |hs| && |result| == i
      invariant forall k :: 0 <= k < i ==> result[k] == reencode(live0[hs[k]])
      invariant heap.freed == freed0 + hs[..i]
      invariant heap.live == live0 - Elements(hs[..i]) && heap.next == old(heap.next)
    {
      assert hs[i] !in Elements(hs[..i]);
      var temp := reencode(heap.live[hs[i]]);
      result := result + [temp];
      assert Elements(hs[..i + 1]) == Elements(hs[..i]) + {hs[i]} by {
        assert hs[..i + 1] == hs[..i] + [hs[i]];
      }
      heap.Free(hs[i]);
      i := i + 1;
    }
    assert hs[..i] == hs;
    assert ConversionFrees(v) == hs;
    assert result == EncodeAll(hs, live0, reencode);
    return Some(result);
  }

  /** The vector-of-string overload without the frees: the variant keeps ownership of its
      BSTRs (VariantClear releases them), so converting reads them and changes no state. */
  method ConvertStringVectorBorrowed<S>(v: Variant, heap: BstrHeap, reencode: Text -> S) returns (r: Option<seq<S>>)
    requires heap.Owns(v)
    ensures r == StringVectorOf(v, heap.live, reencode)
  {
    var intm := ConvertVector(v, AttachBstr);
    if intm.None? {
      return None;
    }
    var hs := intm.value;
    assert hs == v.handles;
    var result: seq<S> := [];
    var i := 0;
    while i < |hs|
      invariant 0 <= i <= |hs| && |result| == i
      invariant forall k :: 0 <= k < i ==> result[k] == reencode(heap.live[hs[k]])
    {
      result := result + [reencode(heap.live[hs[i]])];
      i := i + 1;
    }
    assert result == EncodeAll(hs, heap.live, reencode);
    return Some(result);
  }

  /** Every handle of a well-formed BSTR array occurs in it exactly once, so the
      string-vector overload frees each of them exactly once. */
  lemma {:induction false} DistinctOccursOnce(hs: seq<Handle>)
    requires Distinct(hs)
    ensures forall h :: h in hs ==> multiset(hs)[h] == 1
  {
    if hs != [] {
      assert Distinct(hs[1..]);
      DistinctOccursOnce(hs[1..]);
      assert hs == [hs[0]] + hs[1..];
      assert hs[0] !in hs[1..];
    }
  }
}
