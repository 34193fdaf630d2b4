/** VARIANT values as the WMI object hands them out, and the BSTR allocations they own. */
module Variants {

  /** The identity of one BSTR allocation (its pointer value). */
  type Handle = nat

  /** The wide characters a BSTR holds. */
  type Text = seq<char>

  /** The scalar payloads of a VARIANT; how they convert is the library's business. */
  datatype Scalar = Empty | Null | Boolean(b: bool) | Integer(i: int) | Real(x: real) | Date(days: real)

  /** A VARIANT: a scalar, one BSTR, a SAFEARRAY of scalars, or a SAFEARRAY of BSTRs. */
  datatype Variant =
    | ScalarValue(scalar: Scalar)
    | Bstr(handle: Handle)
    | ScalarArray(elements: seq<Scalar>)
    | TextArray(handles: seq<Handle>)

  /** The BSTRs a variant owns: exactly the ones VariantClear frees, in element order. */
  function Owned(v: Variant): (hs: seq<Handle>)
    ensures v.TextArray? ==> hs == v.handles
    ensures v.ScalarValue? || v.ScalarArray? ==> hs == []
  {
    match v
    case Bstr(h) => [h]
    case TextArray(hs) => hs
    case _ => []
  }

  predicate Distinct(hs: seq<Handle>) {
    forall i, j :: 0 <= i < j < |hs| ==> hs[i] != hs[j]
  }

  function Elements(hs: seq<Handle>): (s: set<Handle>)
    ensures forall h :: h in s <==> h in hs
  {
    set h | h in hs
  }

  /** The characters a callee sees when handed `name.data()` of a wide string view: a C string
      is read up to its first NUL, so that is where the name ends. */
  function UpToNul(name: Text): (r: Text)
    ensures |r| <= |name| && r == name[..|r|]
    ensures '\0' !in r
    ensures |r| < |name| ==> name[|r|] == '\0'
  {
    if name == [] || name[0] == '\0' then [] else [name[0]] + UpToNul(name[1..])
  }

  /** The process's BSTR allocator: which handles are live and what they hold.
      `freed` logs every SysFreeString call, in order. */
  class BstrHeap {
    var live: map<Handle, Text>
    var next: Handle
    ghost var freed: seq<Handle>

    /** Every live handle was handed out before `next`, so `next` is fresh. */
    ghost predicate Valid()
      reads this
    {
      forall h :: h in live ==> h < next
    }

    /** A well-formed variant: the BSTRs it owns are live and pairwise distinct. */
    ghost predicate Owns(v: Variant)
      reads this
    {
      Distinct(Owned(v)) && forall h :: h in Owned(v) ==> h in live
    }

    constructor ()
      ensures Valid() && live == map[] && freed == []
    {
      live := map[];
      next := 0;
      freed := [];
    }

    /** SysAllocString: a fresh handle holding a copy of `t`. */
    method Alloc(t: Text) returns (h: Handle)
      requires Valid()
      modifies this
      ensures Valid() && freed == old(freed)
      ensures h == old(next) && next == old(next) + 1
      ensures h !in old(live) && live == old(live)[h := t]
    {
      h := next;
      live := live[h := t];
      next := next + 1;
    }

    /** SysFreeString: the handle is no longer live; the call is logged. */
    method Free(h: Handle)
      modifies this
      ensures live == old(live) - {h} && next == old(next)
      ensures freed == old(freed) + [h]
      ensures old(Valid()) ==> Valid()
    {
      live := live - {h};
      freed := freed + [h];
    }

    /** The element-wise part of VariantCopy on a BSTR array: one fresh BSTR per
        element, holding the same characters, in element order. */
    method CopyHandles(hs: seq<Handle>) returns (copies: seq<Handle>)
      requires Valid() && forall h :: h in hs ==> h in live
      modifies this
      ensures Valid() && freed == old(freed)
      ensures |copies| == |hs| && Distinct(copies)
      ensures forall k :: 0 <= k < |copies| ==> copies[k] == old(next) + k
      ensures forall k :: 0 <= k < |copies| ==>
                copies[k] !in old(live) && copies[k] in live && live[copies[k]] == old(live)[hs[k]]
      ensures live.Keys == old(live).Keys + Elements(copies)
      ensures forall h :: h in old(live) ==> live[h] == old(live)[h]
    {
      copies := [];
      ghost var live0 := live;
      var i := 0;
      while i < |hs|
        invariant 0 <= i <= |hs| && |copies| == i
        invariant Valid() && freed == old(freed) && next == old(next) + i
        invariant forall k :: 0 <= k < i ==> copies[k] == old(next) + k
        invariant forall h :: h in live0 ==> h in live && live[h] == live0[h]
        invariant forall k :: 0 <= k < i ==> copies[k] in live && live[copies[k]] == live0[hs[k]]
        invariant live.Keys == live0.Keys + Elements(copies)
      {
        var copy := Alloc(live[hs[i]]);
        assert Elements(copies + [copy]) == Elements(copies) + {copy};
        copies := copies + [copy];
        i := i + 1;
      }
    }

    /** VariantCopy, as IWbemClassObject::Get performs it: the copy has the same shape
        and owns fresh BSTRs holding the same characters as the original's. */
    method CopyVariant(v: Variant) returns (c: Variant)
      requires Valid() && Owns(v)
      modifies this
      ensures Valid() && freed == old(freed) && Owns(c)
      ensures c.TextArray? == v.TextArray? && c.Bstr? == v.Bstr?
      ensures !v.Bstr? && !v.TextArray? ==> c == v
      ensures |Owned(c)| == |Owned(v)|
      ensures forall k :: 0 <= k < |Owned(c)| ==>
                Owned(c)[k] !in old(live) && live[Owned(c)[k]] == old(live)[Owned(v)[k]]
      ensures live.Keys == old(live).Keys + Elements(Owned(c))
      ensures forall h :: h in old(live) ==> live[h] == old(live)[h]
    {
      match v
      case Bstr(h) =>
        var copies := CopyHandles([h]);
        c := Bstr(copies[0]);
        assert Owned(c) == copies;
      case TextArray(hs) =>
        var copies := CopyHandles(hs);
        c := TextArray(copies);
      case _ =>
        c := v;
    }

    /** VariantClear: SysFreeString on every BSTR the variant owns. The log lists them in element
        order; that order is assumed, as SafeArrayDestroy does not promise one, and the lemmas
        about the log count frees with a multiset, so none depends on it. */
    method ClearVariant(v: Variant)
      modifies this
      ensures live == old(live) - Elements(Owned(v)) && next == old(next)
      ensures freed == old(freed) + Owned(v)
      ensures old(Valid()) ==> Valid()
    {
      var hs := Owned(v);
      var i := 0;
      while i < |hs|
        invariant 0 <= i <= |hs|
        invariant live == old(live) - Elements(hs[..i]) && next == old(next)
        invariant freed == old(freed) + hs[..i]
        invariant old(Valid()) ==> Valid()
      {
        assert Elements(hs[..i + 1]) == Elements(hs[..i]) + {hs[i]} by {
          assert hs[..i + 1] == hs[..i] + [hs[i]];
        }
        Free(hs[i]);
        i := i + 1;
      }
      assert hs[..i] == hs;
    }
  }
}
