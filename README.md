# json-trait-rs: read-only JSON value abstraction, modelled in Dafny

This project models the core of `json-trait-rs`, a crate that lets code read
JSON-like values without depending on one concrete JSON representation. It covers:

- **Primitive type classifier** (`EnumJsonType`). This is `JsonTypes.Kind`, with its
  fixed lower-case names (`ToType`, `FromType`).
- **Value contract** (`JsonType`). The nine primitive accessors become the
  function-valued fields of `JsonTypes.Adapter<T>`, and `items` of the map view
  is one more field. The trait's default methods are derived once, generically:
  - the `is_*` predicates;
  - `has_attribute`;
  - `primitive_type`, with its fixed priority chain.

  An adapter is `Lawful` when every value has at least one kind. That is the
  condition under which the source's `unreachable` branch is never reached.
- **Map view** (`JsonMap`, `JsonMapTrait`). `JsonTypes.JsonMap<T>` wraps a
  value. `NewMap`/`Deref` build and unwrap it. `Keys` and `Values` are
  projections of `items`.
- **Fragment resolver** (`get_fragment`):
  - `JsonTypes.GetFragment` is a method with a loop that reassigns the current
    result, as the source does.
  - It is proved against the specification functions `Step` and `Resolve`.
  - `Fragment.Components` splits a fragment into components.
  - `Fragment.ParseIndex` is Rust's `str::parse::<usize>`.
- **Adapter for the `json` crate** (`src/traits/_json.rs`). `JsonAdapter.JsonValue`
  stands for `json::JsonValue`. The crate's `Index` operators return `Null` on a
  miss; `IndexByKey` and `IndexByPosition` model that. On top of them, the
  accessors are the constant `JsonAdapter.Json : Adapter<JsonValue>`.

Numbers are Dafny `real`s. A number is "whole" when it equals its floor.

Two points where the code's behaviour is easy to misread:

- The trait declares `as_integer` as returning `Option<i128>` (src/json_type.rs:76). The `json` adapter builds it from `as_f64` and goes through `as i64` (src/traits/_json.rs:43-45).
- With the `json` adapter, a whole number satisfies both `is_integer` and `is_number`. `JsonAdapter.KindsOfValue` proves this, and the crate's tests expect it for `1` (src/traits/_json.rs:199 and :221). The priority order of `primitive_type` then answers Integer. Every other value satisfies exactly one predicate.

## Model

| member | source | states |
|---|---|---|
| `JsonTypes.FromType` | src/json_type.rs:19-33 | a string gives `Some(k)` exactly when it is the name of kind `k`; any other string (wrong case, unknown word) gives `None` |
| `JsonTypes.ToType` | src/json_type.rs:36-46 | every kind's name is a non-empty lower-case word; `FromTypeOfToType` and `ToTypeInjective` state that the names are one-to-one |
| `JsonTypes.FromTypeOfToType` | src/json_type.rs:36-46 | the name of every kind reads back as that kind |
| `JsonTypes.ToTypeInjective` | src/json_type.rs:36-46 | distinct kinds have distinct names |
| `JsonTypes.FromTypeExamples` | src/json_type.rs:208-217 | the six listed names map to their kinds and `"an invalid type"` maps to `None` |
| `JsonTypes.NewMap` | src/json_type.rs:162-181 | a map view built over a value derefs back to that value |
| `JsonTypes.Deref` | src/json_type.rs:171-181 | the value a map view wraps; `NewMap` states that it gives back what the view was built over |
| `JsonTypes.IsArray` | src/json_type.rs:87-89 | holds exactly when `as_array` is present; on `json` values `JsonAdapter.KindsOfValue` states when that is |
| `JsonTypes.IsBoolean` | src/json_type.rs:91-93 | holds exactly when `as_boolean` is present; on `json` values `JsonAdapter.KindsOfValue` states when that is |
| `JsonTypes.IsInteger` | src/json_type.rs:95-97 | holds exactly when `as_integer` is present; on `json` values `JsonAdapter.KindsOfValue` and `JsonAdapter.IntegerIsNumber` state when that is |
| `JsonTypes.IsNull` | src/json_type.rs:99-101 | holds exactly when `as_null` is present; on `json` values `JsonAdapter.KindsOfValue` states when that is |
| `JsonTypes.IsNumber` | src/json_type.rs:103-105 | holds exactly when `as_number` is present; on `json` values `JsonAdapter.KindsOfValue` states when that is |
| `JsonTypes.IsObject` | src/json_type.rs:107-112 | holds exactly when `as_object` is present; on `json` values `JsonAdapter.KindsOfValue` states when that is |
| `JsonTypes.IsString` | src/json_type.rs:114-116 | holds exactly when `as_string` is present; on `json` values `JsonAdapter.KindsOfValue` states when that is |
| `JsonTypes.HasAttribute` | src/json_type.rs:118-120 | holds exactly when `get_attribute` is present; on `json` values `JsonAdapter.HasAttributeOfValue` states when that is |
| `JsonTypes.PrimitiveType` | src/json_type.rs:122-147 | the result's predicate holds, and no kind earlier in the order Array, Boolean, Integer, Null, Number, Object, String holds; the no-match branch is excluded by requiring some predicate to hold |
| `JsonTypes.PrimitiveTypeUnique` | src/json_type.rs:127-140 | any kind that holds with no earlier kind holding is the classification (so Integer wins over Number) |
| `JsonTypes.Keys` | src/json_type.rs:53-56 | the keys of the view's items, in order; `KeysValuesPairItems` states the length and the pairing |
| `JsonTypes.Values` | src/json_type.rs:58-61 | the values of the view's items, in order; `KeysValuesPairItems` states the length and the pairing |
| `JsonTypes.KeysValuesPairItems` | src/json_type.rs:49-65 | keys, values and items have equal length, and item `i` is the pair of key `i` and value `i` |
| `JsonTypes.Step` | src/json_type.rs:191-196 | one step of the walk: attribute lookup on an Object, `usize` parse then index lookup on an Array, `None` otherwise or after a miss; `JsonAdapter.StepOfValue` states when a step misses on `json` values |
| `JsonTypes.Resolve` | src/json_type.rs:189-199 | the steps for each component in order; `ResolveAbsent`, `ResolveAppend` and `RootFragment` state its laws |
| `JsonTypes.ResolveAbsent` | src/json_type.rs:189-198 | once the result is `None`, it stays `None` for all remaining components |
| `JsonTypes.ResolveAppend` | src/json_type.rs:189-199 | resolving `p + q` equals resolving `q` from the result of `p` |
| `JsonTypes.RootFragment` | src/json_type.rs:189-199 | the fragments `""` and `"/"` resolve to the root itself |
| `JsonTypes.GetFragment` | src/json_type.rs:184-200 | the loop's result is the component-by-component resolution of the fragment from the root |
| `Fragment.Components` | src/json_type.rs:190 | every component is non-empty and free of '/', and together the components hold exactly the fragment's non-separator characters in order |
| `Fragment.ComponentsOfPointer` | src/json_type.rs:190 | splitting the fragment `"/c1/c2/…"` built from components gives those components back |
| `Fragment.ComponentsAtSlash` | src/json_type.rs:190 | the fragment is cut at every '/': the components of `f + "/" + g` are those of `f` followed by those of `g` |
| `Fragment.ComponentsOfSlashFree` | src/json_type.rs:190 | a fragment with no '/' is one component, or none when it is empty |
| `Fragment.ParseIndex` | src/json_type.rs:194 | a parsed index fits in `usize`; only strings of decimal digits, optionally led by '+', with at least one digit, parse |
| `Fragment.ParseIndexOfDecimal` | src/json_type.rs:194 | an index in decimal, with or without '+', parses to itself exactly when it fits in `usize` |
| `Fragment.ParseIndexOfDigits` | src/json_type.rs:194 | any digit string, with or without a leading '+', parses to its decimal value when that fits in `usize` |
| `Fragment.ParseIndexLeadingZeros` | src/json_type.rs:194 | leading zeros do not change the index: `"007"` and `"+007"` parse as 7 |
| `JsonAdapter.AsArray` | src/traits/_json.rs:26-32 | present exactly for an array, and yields its members in order |
| `JsonAdapter.AsBoolean` | src/traits/_json.rs:34-36 | present exactly for a boolean, and yields its truth value |
| `JsonAdapter.AsInteger` | src/traits/_json.rs:38-51 | present exactly for a number with zero fractional part, and yields that number as an integer |
| `JsonAdapter.AsNull` | src/traits/_json.rs:53-59 | present exactly for `null` |
| `JsonAdapter.AsNumber` | src/traits/_json.rs:61-63 | present exactly for a number, whole or not, and yields its value |
| `JsonAdapter.AsObject` | src/traits/_json.rs:65-71 | present exactly for an object, and the view derefs to that same value |
| `JsonAdapter.AsString` | src/traits/_json.rs:73-75 | present exactly for a string, and yields its text |
| `JsonAdapter.FindKey` | src/traits/_json.rs:78 | the position of the first entry bound to the key, or `None` when no entry has that key |
| `JsonAdapter.IndexByKey` | src/traits/_json.rs:78 | the crate's key lookup: a non-`Null` result is bound to the key in an object, the first binding is what it returns, and a missing key or a non-object gives `Null` |
| `JsonAdapter.IndexByPosition` | src/traits/_json.rs:87 | the crate's position lookup: the member when the position is in range of an array, `Null` otherwise |
| `JsonAdapter.GetAttribute` | src/traits/_json.rs:77-84 | `None` for a non-object or an absent key; otherwise the first bound value, collapsed to `None` when that value is `null` |
| `JsonAdapter.GetIndex` | src/traits/_json.rs:86-93 | present exactly when the receiver is an array, the index is in range and the member is not `null`; then it is that member |
| `JsonAdapter.KindsOfValue` | src/traits/_json.rs:26-75 | the kinds whose predicates hold of a value are its own kind, plus Number for every number; kinds are otherwise exclusive |
| `JsonAdapter.JsonIsLawful` | src/json_type.rs:141-146 | with the `json` adapter every value has some kind, so classification never reaches the unreachable branch |
| `JsonAdapter.PrimitiveTypeOfValue` | src/json_type.rs:122-140 | a `json` value is classified by its shape, and a whole number is classified Integer, never Number |
| `JsonAdapter.PrimitiveTypeExamples` | src/traits/_json.rs:137-146 | `[]`, `true`, `1`, `null`, `1.2`, `{"prop":"value"}`, `"string"` classify as Array, Boolean, Integer, Null, Number, Object, String |
| `JsonAdapter.AsIntegerExact` | src/traits/_json.rs:38-51 | `as_integer` gives `i` exactly for the number `i`, and nothing for a fractional number or a non-number |
| `JsonAdapter.IntegerIsNumber` | src/traits/_json.rs:38-51 | `is_integer` implies `is_number` |
| `JsonAdapter.AsIntegerExamples` | src/traits/_json.rs:266-284 | `1` gives `Some(1)`; `1.2` gives `None` but is a number; `"1"` gives `None` for both |
| `JsonAdapter.HasAttributeOfValue` | src/json_type.rs:118-120 | `has_attribute` holds exactly when the receiver is an object whose first binding of the name is not `null` |
| `JsonAdapter.AttributeExamples` | src/traits/_json.rs:148-172 | present key found; absent key, `null`-bound key and non-object receiver all give nothing |
| `JsonAdapter.IndexExamples` | src/traits/_json.rs:154-158 | `[0,1,2][1]` is `1`; `[0,1,2][4]` and a `null` member give nothing |
| `JsonAdapter.ArrayAgreesWithIndex` | src/traits/_json.rs:86-93 | position `i` of the array view is what `get_index` returns there, unless that member is `null` |
| `JsonAdapter.Items` | src/traits/_json.rs:18-22 | the entries of the viewed object in order, and nothing for a non-object |
| `JsonAdapter.Keys` | src/traits/_json.rs:7-10 | as long as `items`, and key `i` is the key of item `i` |
| `JsonAdapter.Values` | src/traits/_json.rs:12-16 | as long as `items`, and value `i` is the value of item `i` |
| `JsonAdapter.MapViewOfObject` | src/traits/_json.rs:5-23 | items enumerate the object's entries in order, and the adapter's own keys and values equal the projections of items |
| `JsonAdapter.MapViewExample` | src/traits/_json.rs:100-126 | on `{"k1":"v1","k2":"v2"}`, keys, values and items are `["k1","k2"]`, `["v1","v2"]` and the paired list |
| `JsonAdapter.StepOfValue` | src/json_type.rs:191-196 | one step misses exactly when the value is a scalar, the object has no non-null first binding, or the component is not a usize index of a non-null member; otherwise it yields a bound value or a member |
| `JsonAdapter.FragmentExampleRoot` | src/json_type.rs:234 | `""` resolves to the whole root |
| `JsonAdapter.FragmentExampleKey` | src/json_type.rs:235 | `"/key"` resolves to the inner object |
| `JsonAdapter.FragmentExampleInnerKey` | src/json_type.rs:236 | `"/key/inner_key"` resolves to `[1, "2"]` |
| `JsonAdapter.FragmentExampleFirstMember` | src/json_type.rs:237 | `"/key/inner_key/0"` resolves to `1` |
| `JsonAdapter.FragmentExampleSecondMember` | src/json_type.rs:238 | `"/key/inner_key/1"` resolves to `"2"` |
| `JsonAdapter.FragmentExampleNotPresent` | src/json_type.rs:239 | `"/not_present"` resolves to nothing |
| `JsonAdapter.FragmentExampleNotAnIndex` | src/json_type.rs:240 | `"/key/inner_key/a"` resolves to nothing |
| `JsonAdapter.FragmentExampleOutOfRange` | src/json_type.rs:241 | `"/key/inner_key/2"` resolves to nothing |

## Left out

- `fragment_components_from_fragment` lives in `crate::fragment`, which is not part of this model. `Fragment.Components` stands in for it. It splits on '/' and keeps the non-empty pieces. This agrees with the fragments the tests use. Any escaping or decoding the real splitter does is not modelled.
- `JsonAdapter.AsInteger`: the `f64` arithmetic (`fract`, `trunc`) and the saturating `as i64` cast are not modelled. Numbers are exact reals. A whole number beyond the `i64` range therefore gives its exact value here, not `i64::MAX`/`i64::MIN`.
- `JsonAdapter.AsNumber`: yields the exact real, not an `f64`. Rounding and non-finite values are not modelled.
- `JsonAdapter.GetIndex` and `JsonTypes.Adapter.getIndex` take an unbounded `nat`, not a `usize`. `Fragment.ParseIndex` does keep the `usize` bound of a 64-bit target.
- `JsonAdapter.FindKey`: an object is a sequence of entries and lookup takes the first binding. The `json` crate's object never holds a key twice, so "first" and "only" coincide there.
- The `json` crate itself (`members()`, `entries()`, `Index`) is modelled only through the `JsonValue` datatype. Its stated behaviour is that a miss gives `Null`.
- `ThreadSafeJsonType`, lifetimes, boxed iterators and higher-ranked bounds are not modelled. Iterators are sequences. Each call to `keys`/`values`/`items` is a pure function, so restartability holds trivially.
- `src/error.rs` has no behaviour beyond declarations and message formatting, so it is not modelled.
- `JsonType::get`, `crate::index::Index` and `RustType`, used only by tests, are not part of this model. The `RustType` fragment test is restated over `JsonValue`.
- `JsonTypes.PrimitiveType` has a precondition that some predicate holds. The source instead reaches `unreachable::unreachable()` (undefined behaviour) when no predicate holds.
