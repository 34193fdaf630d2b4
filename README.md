# wmipp: the typed-value layer of a WMI wrapper, in Dafny

wmipp is a header-only C++ wrapper around Windows Management Instrumentation (WMI).
A caller opens an `Interface`, runs a WQL query, and gets back a `QueryResult`. That is an
ordered collection of `Object`s, drained from the query's enumerator. From any object the
caller reads a named property as `std::optional<T>`. The `ConvertVariant<T>` overload family
turns the property's VARIANT into a `T`, and every conversion failure becomes `nullopt`.

This project models that layer:

- `Wrappers`: `Option` (std::optional) and `Attempt` (a library call that returns or throws).
- `Variants`: the VARIANT shapes (scalar, one BSTR, array of scalars, array of BSTRs). It also
  models the BSTR allocator as a class `BstrHeap`. The heap records which handles are live and
  logs every `SysFreeString`. `BstrHeap.CopyVariant` models the `VariantCopy` that
  `IWbemClassObject::Get` performs, and `BstrHeap.ClearVariant` models the `VariantClear` that
  `~CComVariant` performs.
- `Conversion`: the four `ConvertVariant` overloads (scalar, string, vector, vector of string).
- `Objects`: `Object::GetProperty`, and the vector-of-string case with its BSTR lifetimes spelled
  out (see "## Findings").
- `Query`: the enumerator as a finite script of `Next` results, and `QueryResult` as a class.
  Its constructor and `PopulateObjects` fill the `objects` field, and it has both
  `GetProperty` overloads.

The library's own coercions are parameters of the model rather than definitions:
`static_cast<T>(_variant_t(v))`, `CComSafeArray<E>::Attach` for scalar `E`, and the
narrow/wide re-encoding of a `_bstr_t`. `CComSafeArray<BSTR>::Attach` is the exception. It is
defined (`AttachBstr`) because the ownership of the BSTRs it exposes is what the model is about.

What the code provides, and so what the model provides:
- Indexed access has one form, `GetProperty(name, index)`. There is no `GetAt`. An index at
  or past the end gives `nullopt`.
- For `T` = `CComVariant` or `_variant_t`, the scalar overload returns a deep copy of the variant.
  The model covers only the success side of this: `ConvertScalar` with a `cast` that returns its
  argument gives a variant of the same value. It does not make fresh BSTRs for that copy (see
  "## Left out").
- The vector overloads never look at the variant's tag. They attach `variant.parray`
  whatever the tag is.

## Model

| member | source | states |
|---|---|---|
| `Conversion.ConvertScalar` | include/wmipp/wmipp.hxx:21-27 | Never fails. The result is absent exactly when the coercion throws, and is the coerced value otherwise. |
| `Conversion.ConvertString` | include/wmipp/wmipp.hxx:29-40 | Present exactly when the intermediate `_bstr_t` conversion is present. The value is then that text re-encoded into the requested string type. |
| `Conversion.NarrowAndWideAgree` | include/wmipp/wmipp.hxx:31-37 | `std::string` and `std::wstring` conversions of one variant are both present or both absent. Both start from the same `_bstr_t`. So when the narrow encoding factors through the wide one, the narrow result is the wide result re-encoded. The wide encoding is a parameter, so its truncation at an embedded NUL is covered. |
| `Conversion.ConvertVector` | include/wmipp/wmipp.hxx:42-60 | Absent when `Attach` throws. Otherwise the result has `GetCount()` elements, the i-th equal to array element i. An empty array gives a present empty vector. No state changes, so the borrowed array is not freed. |
| `Conversion.AttachBstr` | include/wmipp/wmipp.hxx:47-49 | `CComSafeArray<BSTR>::Attach` succeeds exactly on an array of BSTRs. It then exposes that array's own handles, not copies. |
| `Conversion.EncodeAll` | include/wmipp/wmipp.hxx:74-77 | Gives one string per handle, in order. The i-th is the re-encoding of the characters behind handle i. |
| `Conversion.StringVectorOf` | include/wmipp/wmipp.hxx:62-82 | Absent exactly when the BSTR-vector step is absent. Otherwise it has one entry per handle, in source order, each the text behind its handle. |
| `Conversion.ConversionFrees` | include/wmipp/wmipp.hxx:69-78 | The frees of the string-vector overload: none when the BSTR-vector step is absent, otherwise every handle it yielded, in order. |
| `Conversion.ConvertStringVector` | include/wmipp/wmipp.hxx:62-82 | Returns `StringVectorOf` of the contents before the call. Each handle is read while still live and then freed, once each, in source order. Exactly those handles stop being live. |
| `Conversion.ConvertStringVectorBorrowed` | include/wmipp/wmipp.hxx:62-82 | Corrected overload: the same result as `ConvertStringVector`, and it frees nothing. |
| `Conversion.DistinctOccursOnce` | include/wmipp/wmipp.hxx:74-79 | Every handle of a well-formed BSTR array occurs exactly once in it, so the conversion frees each handle exactly once. |
| `Variants.UpToNul` | include/wmipp/wmipp.hxx:104-107 | The name `Get` sees through `name.data()`: the longest prefix of `name` with no NUL. It stops at a NUL when there is one. |
| `Variants.BstrHeap.Free` | include/wmipp/wmipp.hxx:78 | `SysFreeString` makes the handle no longer live and is logged. |
| `Variants.BstrHeap.CopyHandles` | include/wmipp/wmipp.hxx:105-111 | Makes one fresh BSTR per element, holding the same characters, in order. Existing BSTRs are untouched. |
| `Variants.BstrHeap.CopyVariant` | include/wmipp/wmipp.hxx:105-111 | The VARIANT that `Get` writes is a copy of the same shape. It owns fresh, distinct BSTRs with the same characters. |
| `Variants.BstrHeap.ClearVariant` | include/wmipp/wmipp.hxx:105 | `~CComVariant` frees every BSTR the variant owns and nothing else. The log lists them in element order. That order is an assumption: `SafeArrayDestroy` does not document it, and the lemmas that use the log count frees with a multiset. |
| `Objects.Object.GetProperty` | include/wmipp/wmipp.hxx:103-117 | The property is looked up by the characters of `name` up to its first NUL, because `name.data()` is read as a NUL-terminated string. Absent without consulting the converter when the fetch fails. Otherwise it is the converter's verdict on the fetched value. |
| `Objects.GetStringArrayPropertyAsWritten` | include/wmipp/wmipp.hxx:104-116 | Source behaviour for `std::vector<std::string>`. The result is the strings of the stored array. Every BSTR of the fetched copy is freed twice: once by the conversion and once by the variant's destructor. |
| `Objects.GetStringArrayProperty` | include/wmipp/wmipp.hxx:104-116 | Corrected behaviour: the same result, every BSTR of the fetched copy freed exactly once, and the live BSTRs afterwards are those before. |
| `Objects.CopyConvertsAlike` | include/wmipp/wmipp.hxx:105-116 | Converting the copy that `Get` returns gives the strings the stored value holds. |
| `Objects.ClearedCopyRestores` | include/wmipp/wmipp.hxx:105-116 | After the copy's BSTRs are freed, the live BSTRs are exactly those before the fetch. |
| `Objects.AsWrittenFreesTwice` | include/wmipp/wmipp.hxx:74-79 | Under the source's ownership, every BSTR of a fetched string array is passed to `SysFreeString` exactly twice. |
| `Query.Drain` | include/wmipp/wmipp.hxx:188-203 | Keeps one object per `Next` that succeeded with a non-zero count, in order. The result is at most as long as the results. Drain stops exactly at the first failed or empty result. |
| `Query.Enumerator.Next` | include/wmipp/wmipp.hxx:192-196 | Reports the next scripted result and advances. Once the script is used up it reports `WBEM_S_FALSE` with no object. |
| `Query.QueryResult.constructor` | include/wmipp/wmipp.hxx:132-134 | A null enumerator gives no objects. Otherwise `objects` is the drain of the enumerator's remaining results. The enumerator is left just past the first failed or empty `Next`, or at its end when every result delivered. |
| `Query.QueryResult.PopulateObjects` | include/wmipp/wmipp.hxx:188-203 | Appends the drain of the enumerator's remaining results to `objects`. The first failed or empty `Next` is the last call made: the enumerator's position advances by one past the drained results, or to its end when every result delivered. |
| `Query.QueryResult.GetPropertyAt` | include/wmipp/wmipp.hxx:165-169 | Absent for an index at or past the end. A present answer implies an in-range index and a property named by `name` up to its first NUL. In range, it is that object's answer. |
| `Query.QueryResult.GetProperty` | include/wmipp/wmipp.hxx:145-154 | Absent iff no object's lookup is present, and so absent for an empty result. Otherwise it is the answer at the first index, in order, whose lookup is present. |

## Findings

| source | as written | input that shows it | evidently intended | confidence | as-written member | corrected member |
|---|---|---|---|---|---|---|
| include/wmipp/wmipp.hxx:69-78 | The vector-of-string overload calls `SysFreeString` on each BSTR it got from `ConvertVariant<std::vector<BSTR>>`. Those are the variant's own handles (`CComSafeArray<BSTR>::GetAt` yields a `CComBSTR&` whose pointer is copied). `Object::GetProperty`'s local `CComVariant` still owns the array, and its destructor frees every one of them again. | `GetProperty<std::vector<std::string>>` on a property holding a one-element string array, such as `IPAddress` of `Win32_NetworkAdapterConfiguration` | Each BSTR is freed exactly once, by the owning variant, and the conversion only reads them | medium, not executed. Reasoned from the ATL/OLE ownership rules, and it assumes the compiler selects the overload at lines 62-82. Line 63 repeats line 43's `std::is_same_v<T, std::vector<typename T::value_type>>` inline instead of through a named concept. Under [temp.constr.atomic]/2 of the C++ standard, the two copies are not identical constraints, so neither overload subsumes the other. A conforming compiler then rejects `GetProperty<std::vector<std::string>>` as ambiguous, which is a compile error and no double free. What MSVC does was not checked. | `Objects.GetStringArrayPropertyAsWritten` (with `Objects.AsWrittenFreesTwice`) | `Objects.GetStringArrayProperty` (with `Conversion.ConvertStringVectorBorrowed`) |

## Left out

- `Interface` construction, destruction, copy and `ExecuteQuery`: left out. They are COM/WMI calls (`CoInitializeEx`, `CoCreateInstance`, `ConnectServer`, `CoSetProxyBlanket`, `ExecQuery`, `Release`, `CoUninitialize`) with no logic beyond "fail, uninitialize, throw". The enumerator `ExecuteQuery` hands to `QueryResult` is a parameter, `Query.Enumerator`.
- Coercion rules of `_variant_t`, `CComSafeArray<E>::Attach` for scalar `E`, and `_bstr_t`: left out. They are parameters (`cast`, `toBstr`, `attach`, `reencode`). Integer widths, floating point, dates and narrow/wide encoding belong to the library. So does the truncation at an embedded NUL when a `_bstr_t` becomes a `std::string`/`std::wstring`.
- Vector overloads on a non-array variant: they read `variant.parray` whatever the tag. For the BSTR-array overload, `AttachBstr` treats a non-array variant as an attach failure, which is what happens with the zeroed pointer of an empty or null variant. For scalar elements, `attach` is a parameter and the model puts no constraint on it for a non-array variant. For tags other than empty or null, the union holds another payload and the behaviour is undefined. The model does not capture that.
- Objects.Object.GetProperty: the `std::wstring_view` name is passed as `name.data()`, which `Get` reads up to a NUL. The model looks the name up by its characters before the first NUL (`UpToNul`). A view that is not NUL-terminated in memory, such as a `substr` of a longer string, makes `Get` read past the view's end. That read is not modelled: the model stops at the view's end. Also, on this pure path the converter is handed the stored variant in place of the copy `Get` writes into the local `CComVariant`. So converters are assumed to depend on a value's content and not on the identity of its BSTR handles: `toBstr` sees a single BSTR's handle and not its characters in the heap. A pass-through result (`T` = `CComVariant`/`_variant_t`) carries the stored handles, not fresh copies. BSTR ownership across `Get`, the conversion and `~CComVariant` is modelled only on the string-array path (`Objects.GetStringArrayProperty` and its as-written twin).
- Safe-array lower bounds: `GetAt(i)` is modelled with lower bound 0, as WMI arrays have.
- Exceptions outside a `try`: out-of-memory from `_bstr_t` copies, `reserve` and `push_back` propagates to the caller. It is not modelled.
- Lock and unlock done by `Attach`/`Detach`: not modelled. `ConvertVector` has no `modifies` clause, so it provably changes no state.
- `QueryResult::GetProperty`: modelled over side-effect-free converters. The BSTR effects of the string-vector converter are modelled on a single object (`Objects.GetStringArrayProperty`).
- `QueryResult::begin`/`end`: the iteration is the `objects` sequence itself. Range-for over it is the loop in `Query.QueryResult.GetProperty`.
- `IWbemClassObject::Get` failures: only the failure for an unknown name is modelled.
- COM reference counting and the lifetime of objects relative to the `Interface`: left out. It is documented, not enforced, and the same goes for apartment threading.
- The blocking of `WBEM_INFINITE`: left out. An enumerator is a finite script of results.
