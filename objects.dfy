/** One WMI object of a query result and typed access to its named properties. */
module Objects {
  import opened Wrappers
  import opened Variants
  import opened Conversion

  /** A WMI class object: the properties IWbemClassObject::Get can fetch, by name.
      Fetching a name the object does not have fails. */
  datatype Object = Object(properties: map<Text, Variant>) {

    /** Object::GetProperty<T>: Get receives `name.data()`, so the property fetched is the
        name up to its first NUL. When the fetch fails the result is absent and the converter
        is not consulted; otherwise it is the converter's verdict on the fetched value.
        `convert` is the ConvertVariant overload chosen by T. */
    function GetProperty<T>(name: Text, convert: Variant -> Option<T>): (r: Option<T>)
      ensures r.Some? <==> UpToNul(name) in properties && convert(properties[UpToNul(name)]).Some?
      ensures r.Some? ==> r == convert(properties[UpToNul(name)])
    {
      var key := UpToNul(name);
      if key !in properties then None else convert(properties[key])
    }
  }

  /** Object::GetProperty<std::vector<S>> for a string type S, with the BSTR lifetimes made
      explicit, as the source has it: Get copies the property into a local CComVariant, the
      string-vector overload frees every BSTR of the copy, and the CComVariant's destructor
      then clears the copy, which frees every one of them a second time. `fetched` is the copy. */
  method GetStringArrayPropertyAsWritten<S>(obj: Object, name: Text, heap: BstrHeap, reencode: Text -> S)
    returns (r: Option<seq<S>>, ghost fetched: Variant)
    requires heap.Valid()
    requires UpToNul(name) in obj.properties ==> heap.Owns(obj.properties[UpToNul(name)])
    modifies heap
    ensures heap.Valid() && heap.live == old(heap.live)
    ensures UpToNul(name) !in obj.properties ==> r == None && heap.freed == old(heap.freed)
    ensures UpToNul(name) in obj.properties ==> r == StringVectorOf(obj.properties[UpToNul(name)], old(heap.live), reencode)
    ensures UpToNul(name) in obj.properties ==>
              fetched.TextArray? == obj.properties[UpToNul(name)].TextArray? &&
              |Owned(fetched)| == |Owned(obj.properties[UpToNul(name)])| &&
              Distinct(Owned(fetched)) &&
              (forall h :: h in Owned(fetched) ==> h !in old(heap.live)) &&
              heap.freed == old(heap.freed) + ConversionFrees(fetched) + Owned(fetched)
  {
    if UpToNul(name) !in obj.properties {
      return None, ScalarValue(Empty);
    }
    ghost var live0 := heap.live;
    var variant := heap.CopyVariant(obj.properties[UpToNul(name)]);
    fetched := variant;
    ghost var live1 := heap.live;
    r := ConvertStringVector(variant, heap, reencode);
    heap.ClearVariant(variant);
    CopyConvertsAlike(obj.properties[UpToNul(name)], live0, variant, live1, reencode);
    ClearedCopyRestores(live0, live1, Owned(variant), ConversionFrees(variant), heap.live);
  }

  /** The same operation with the evidently intended ownership: the string-vector step
      reads the copy's BSTRs without freeing them and the CComVariant's destructor frees
      each of them, exactly once. */
  method GetStringArrayProperty<S>(obj: Object, name: Text, heap: BstrHeap, reencode: Text -> S)
    returns (r: Option<seq<S>>, ghost fetched: Variant)
    requires heap.Valid()
    requires UpToNul(name) in obj.properties ==> heap.Owns(obj.properties[UpToNul(name)])
    modifies heap
    ensures heap.Valid() && heap.live == old(heap.live)
    ensures UpToNul(name) !in obj.properties ==> r == None && heap.freed == old(heap.freed)
    ensures UpToNul(name) in obj.properties ==> r == StringVectorOf(obj.properties[UpToNul(name)], old(heap.live), reencode)
    ensures UpToNul(name) in obj.properties ==>
              fetched.TextArray? == obj.properties[UpToNul(name)].TextArray? &&
              |Owned(fetched)| == |Owned(obj.properties[UpToNul(name)])| &&
              Distinct(Owned(fetched)) &&
              (forall h :: h in Owned(fetched) ==> h !in old(heap.live)) &&
              heap.freed == old(heap.freed) + Owned(fetched)
  {
    if UpToNul(name) !in obj.properties {
      return None, ScalarValue(Empty);
    }
    ghost var live0 := heap.live;
    var variant := heap.CopyVariant(obj.properties[UpToNul(name)]);
    fetched := variant;
    ghost var live1 := heap.live;
    r := ConvertStringVectorBorrowed(variant, heap, reencode);
    heap.ClearVariant(variant);
    CopyConvertsAlike(obj.properties[UpToNul(name)], live0, variant, live1, reencode);
    ClearedCopyRestores(live0, live1, Owned(variant), [], heap.live);
  }

  /** Converting a VariantCopy gives the strings the original would have given. */
  lemma CopyConvertsAlike<S>(v: Variant, live0: map<Handle, Text>, c: Variant, live1: map<Handle, Text>, reencode: Text -> S)
    requires forall h :: h in Owned(v) ==> h in live0
    requires forall h :: h in Owned(c) ==> h in live1
    requires c.TextArray? == v.TextArray? && |Owned(c)| == |Owned(v)|
    requires forall k :: 0 <= k < |Owned(c)| ==> live1[Owned(c)[k]] == live0[Owned(v)[k]]
    ensures StringVectorOf(c, live1, reencode) == StringVectorOf(v, live0, reencode)
  {
    if v.TextArray? {
      var a := StringVectorOf(c, live1, reencode).value;
      var b := StringVectorOf(v, live0, reencode).value;
      assert |a| == |b|;
      forall i | 0 <= i < |a| ensures a[i] == b[i] {
        assert live1[c.handles[i]] == live0[v.handles[i]];
      }
      assert a == b;
    }
  }

  /** Freeing the copy's BSTRs (some of them possibly twice) leaves the live BSTRs as they
      were before the copy was made. */
  lemma ClearedCopyRestores(live0: map<Handle, Text>, live1: map<Handle, Text>, copies: seq<Handle>,
                            early: seq<Handle>, live3: map<Handle, Text>)
    requires live1.Keys == live0.Keys + Elements(copies)
    requires forall h :: h in live0 ==> live1[h] == live0[h]
    requires forall h :: h in copies ==> h !in live0
    requires Elements(early) <= Elements(copies)
    requires live3 == (live1 - Elements(early)) - Elements(copies)
    ensures live3 == live0
  {
    assert live3.Keys == live0.Keys;
  }

  /** The double free: with the source's ownership, every BSTR of a fetched string array is
      passed to SysFreeString twice. */
  lemma AsWrittenFreesTwice(fetched: Variant)
    requires fetched.TextArray? && Distinct(fetched.handles)
    ensures forall h :: h in fetched.handles ==> multiset(ConversionFrees(fetched) + Owned(fetched))[h] == 2
  {
    DistinctOccursOnce(fetched.handles);
  }
}
