/** A query result: the objects drained from a WMI enumerator, and property lookup across them. */
module Query {
  import opened Wrappers
  import opened Variants
  import opened Objects

  /** An HRESULT: a signed 32-bit status code. */
  type HResult = x: int | -0x8000_0000 <= x < 0x8000_0000

  /** The FAILED macro: the severity bit is set. */
  predicate Failed(hr: HResult) { hr < 0 }

  /** WBEM_S_FALSE: the enumerator has no more objects. */
  const WbemSFalse: HResult := 1

  /** What one IEnumWbemClassObject::Next(WBEM_INFINITE, 1, ...) call reports: its status,
      how many objects it returned, and the object (meaningful only when one was returned). */
  datatype NextResult = NextResult(status: HResult, returnedCount: nat, classObject: Object)

  /** The Next call handed over an object and the loop keeps going. */
  predicate Delivers(n: NextResult) {
    !Failed(n.status) && n.returnedCount != 0
  }

  /** The objects PopulateObjects keeps from a sequence of Next results: one per result,
      in order, up to the first failed or empty one. */
  function Drain(results: seq<NextResult>): (objects: seq<Object>)
    ensures |objects| <= |results|
    ensures forall i :: 0 <= i < |objects| ==> Delivers(results[i]) && objects[i] == results[i].classObject
    ensures |objects| < |results| ==> !Delivers(results[|objects|])
  {
    if results == [] || !Delivers(results[0]) then [] else [results[0].classObject] + Drain(results[1..])
  }

  /** An IEnumWbemClassObject: the finite sequence of results its Next calls report; once
      they are used up, Next reports WBEM_S_FALSE with no object. */
  class Enumerator {
    const script: seq<NextResult>
    var position: nat

    ghost predicate Valid()
      reads this
    {
      position <= |script|
    }

    /** The results the enumerator has not yet reported. */
    ghost function Remaining(): seq<NextResult>
      reads this
      requires Valid()
    {
      script[position..]
    }

    constructor (script: seq<NextResult>)
      ensures Valid() && this.script == script && position == 0
    {
      this.script := script;
      position := 0;
    }

    method Next() returns (r: NextResult)
      requires Valid()
      modifies this
      ensures Valid()
      ensures old(position) < |script| ==> r == script[old(position)] && position == old(position) + 1
      ensures old(position) == |script| ==> r.status == WbemSFalse && r.returnedCount == 0 && position == old(position)
    {
      if position < |script| {
        r := script[position];
        position := position + 1;
      } else {
        r := NextResult(WbemSFalse, 0, Object(map[]));
      }
    }
  }

  /** QueryResult: the objects of one executed query, kept in enumeration order. */
  class QueryResult {
    var objects: seq<Object>

    /** An absent enumerator gives an empty result; otherwise the enumerator is drained and
        left just past the first failed or empty Next (or at its end). */
    constructor (enumerator: Enumerator?)
      requires enumerator != null ==> enumerator.Valid()
      modifies enumerator
      ensures enumerator == null ==> objects == []
      ensures enumerator != null ==> objects == Drain(old(enumerator.Remaining())) && enumerator.Valid()
      ensures enumerator != null ==>
                var before := old(enumerator.Remaining());
                enumerator.position == old(enumerator.position) +
                  (if |Drain(before)| < |before| then |Drain(before)| + 1 else |before|)
    {
      objects := [];
      new;
      if enumerator != null {
        ghost var rest := enumerator.Remaining();
        PopulateObjects(enumerator);
        assert objects == [] + Drain(rest) == Drain(rest);
      }
    }

    /** Appends one object per Next call that succeeded with a non-zero count, in order, and
        stops at the first call that failed or returned nothing: that call is the last one made.
        In the library this method and `objects` are private and only the constructor calls it,
        once, on an empty `objects`; a second call here would append. */
    method PopulateObjects(enumerator: Enumerator)
      requires enumerator.Valid()
      modifies this, enumerator
      ensures enumerator.Valid()
      ensures objects == old(objects) + Drain(old(enumerator.Remaining()))
      ensures var before := old(enumerator.Remaining());
              enumerator.position == old(enumerator.position) +
                (if |Drain(before)| < |before| then |Drain(before)| + 1 else |before|)
    {
      ghost var results := enumerator.Remaining();
      ghost var drained := Drain(results);
      ghost var start := enumerator.position;
      ghost var k := 0;
      while true
        invariant enumerator.Valid() && enumerator.position == start + k
        invariant results == enumerator.script[start..] && k <= |drained|
        invariant objects == old(objects) + drained[..k]
        decreases |results| - k
      {
        var result := enumerator.Next();
        if Failed(result.status) || result.returnedCount == 0 {
          assert k == |drained|;
          break;
        }
        assert k < |drained| && drained[k] == result.classObject;
        assert drained[..k + 1] == drained[..k] + [result.classObject];
        objects := objects + [result.classObject];
        k := k + 1;
      }
      assert drained[..k] == drained;
    }

    /** GetProperty(name, index): absent for an index past the end; otherwise what the
        object at that index answers. */
    function GetPropertyAt<T>(name: Text, index: nat, convert: Variant -> Option<T>): (r: Option<T>)
      reads this
      ensures index >= |objects| ==> r.None?
      ensures r.Some? ==> index < |objects| && UpToNul(name) in objects[index].properties
      ensures index < |objects| ==> r == objects[index].GetProperty(name, convert)
    {
      if index >= |objects| then None else objects[index].GetProperty(name, convert)
    }

    /** GetProperty(name): the answer of the first object, in order, whose lookup is present;
        absent when no object has one, in particular when there are no objects. */
    method GetProperty<T>(name: Text, convert: Variant -> Option<T>) returns (r: Option<T>)
      ensures r.None? <==> forall i :: 0 <= i < |objects| ==> GetPropertyAt(name, i, convert).None?
      ensures r.Some? ==> exists i :: 0 <= i < |objects| && r == GetPropertyAt(name, i, convert) &&
                            forall j :: 0 <= j < i ==> GetPropertyAt(name, j, convert).None?
    {
      var i := 0;
      while i < |objects|
        invariant 0 <= i <= |objects|
        invariant forall j :: 0 <= j < i ==> GetPropertyAt(name, j, convert).None?
      {
        var value := objects[i].GetProperty(name, convert);
        if value.Some? {
          assert value == GetPropertyAt(name, i, convert);
          return value;
        }
        i := i + 1;
      }
      return None;
    }
  }
}
