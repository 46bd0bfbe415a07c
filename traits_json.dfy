/**
 * The accessor contract implemented for the `json` crate's value type.
 * The crate's own value is modelled by `JsonValue`; its `Index` operators
 * give `Null` on a miss, which is how absent keys and out-of-range
 * positions reach the accessors below.
 */
module JsonAdapter {
  import opened Wrappers
  import JT = JsonTypes
  import Fragment

  /** A value of the `json` crate; an object keeps its entries in insertion order. */
  datatype JsonValue =
    | Null
    | Bool(b: bool)
    | Num(n: real)
    | Str(s: string)
    | Arr(members: seq<JsonValue>)
    | Obj(entries: seq<(string, JsonValue)>)

  /** A number with zero fractional part. */
  predicate IsWhole(x: real) {
    x.Floor as real == x
  }

  /** The crate's `entries()`: the pairs of an object, nothing for any other value. */
  function Entries(v: JsonValue): seq<(string, JsonValue)> {
    if v.Obj? then v.entries else []
  }

  /** `items` of the map view: the entries of the viewed value, in order. */
  function Items(m: JT.JsonMap<JsonValue>): (r: seq<(string, JsonValue)>)
    ensures JT.Deref(m).Obj? ==> r == JT.Deref(m).entries
    ensures !JT.Deref(m).Obj? ==> r == []
  {
    Entries(JT.Deref(m))
  }

  /** `keys` of the map view, collected from the entries directly. */
  function Keys(m: JT.JsonMap<JsonValue>): (r: seq<string>)
    ensures |r| == |Items(m)|
    ensures forall i | 0 <= i < |r| :: r[i] == Items(m)[i].0
  {
    var es := Entries(JT.Deref(m));
    seq(|es|, i requires 0 <= i < |es| => es[i].0)
  }

  /** `values` of the map view, collected from the entries directly. */
  function Values(m: JT.JsonMap<JsonValue>): (r: seq<JsonValue>)
    ensures |r| == |Items(m)|
    ensures forall i | 0 <= i < |r| :: r[i] == Items(m)[i].1
  {
    var es := Entries(JT.Deref(m));
    seq(|es|, i requires 0 <= i < |es| => es[i].1)
  }

  /** `as_array`: the members, in order, of an array and of nothing else. */
  function AsArray(v: JsonValue): (r: Option<seq<JsonValue>>)
    ensures r.Some? <==> v.Arr?
    ensures r.Some? ==> r.value == v.members
  {
    if v.Arr? then Some(v.members) else None
  }

  /** `as_boolean`: the truth value of a boolean, and nothing for any other value. */
  function AsBoolean(v: JsonValue): (r: Option<bool>)
    ensures r.Some? <==> v.Bool?
    ensures r.Some? ==> r.value == v.b
  {
    if v.Bool? then Some(v.b) else None
  }

  /** `as_number`: the value of any number, whole or not, and nothing for any other value. */
  function AsNumber(v: JsonValue): (r: Option<real>)
    ensures r.Some? <==> v.Num?
    ensures r.Some? ==> r.value == v.n
  {
    if v.Num? then Some(v.n) else None
  }

  /** `as_integer`: a number whose fractional part is zero, as an integer. */
  function AsInteger(v: JsonValue): (r: Option<int>)
    ensures r.Some? <==> v.Num? && IsWhole(v.n)
    ensures r.Some? ==> r.value as real == v.n
  {
    match AsNumber(v)
    case Some(x) => if IsWhole(x) then Some(x.Floor) else None
    case None => None
  }

  /** `as_null`: present for `null` only. */
  function AsNull(v: JsonValue): (r: Option<()>)
    ensures r.Some? <==> v.Null?
  {
    if v.Null? then Some(()) else None
  }

  /** `as_object`: a map view over an object, and over nothing else. */
  function AsObject(v: JsonValue): (r: Option<JT.JsonMap<JsonValue>>)
    ensures r.Some? <==> v.Obj?
    ensures r.Some? ==> JT.Deref(r.value) == v
  {
    if v.Obj? then Some(JT.NewMap(v)) else None
  }

  /** `as_string`: the text of a string, and nothing for any other value. */
  function AsString(v: JsonValue): (r: Option<string>)
    ensures r.Some? <==> v.Str?
    ensures r.Some? ==> r.value == v.s
  {
    if v.Str? then Some(v.s) else None
  }

  /** Position of the first entry whose key is `key`. */
  function FindKey(entries: seq<(string, JsonValue)>, key: string): (r: Option<nat>)
    ensures r.Some? ==> r.value < |entries| && entries[r.value].0 == key
    ensures r.Some? ==> forall j | 0 <= j < r.value :: entries[j].0 != key
    ensures r.None? ==> forall j | 0 <= j < |entries| :: entries[j].0 != key
    decreases |entries|
  {
    if entries == [] then None
    else if entries[0].0 == key then Some(0)
    else
      match FindKey(entries[1..], key)
      case Some(i) => Some(i + 1)
      case None => None
  }

  /** The crate's `Index<&str>`: the bound value, or `Null` on a miss or a non-object. */
  function IndexByKey(v: JsonValue, key: string): (r: JsonValue)
    ensures r != Null ==> v.Obj? && (key, r) in v.entries
    ensures forall i | 0 <= i < |Entries(v)| && Entries(v)[i].0 == key && (forall j | 0 <= j < i :: Entries(v)[j].0 != key) ::
      r == Entries(v)[i].1
    ensures (!v.Obj? || forall j | 0 <= j < |v.entries| :: v.entries[j].0 != key) ==> r == Null
  {
    if v.Obj? then
      match FindKey(v.entries, key)
      case Some(i) => v.entries[i].1
      case None => Null
    else Null
  }

  /** The crate's `Index<usize>`: the member, or `Null` when out of range or a non-array. */
  function IndexByPosition(v: JsonValue, index: nat): (r: JsonValue)
    ensures v.Arr? && index < |v.members| ==> r == v.members[index]
    ensures !(v.Arr? && index < |v.members|) ==> r == Null
  {
    if v.Arr? && index < |v.members| then v.members[index] else Null
  }

  /**
   * `get_attribute`: the value first bound to `name` in an object, except
   * that a missing key, a key bound to `null` and a non-object receiver all
   * give `None`.
   */
  function GetAttribute(v: JsonValue, name: string): (r: Option<JsonValue>)
    ensures !v.Obj? ==> r.None?
    ensures v.Obj? && (forall j | 0 <= j < |v.entries| :: v.entries[j].0 != name) ==> r.None?
    ensures forall i | 0 <= i < |Entries(v)| && Entries(v)[i].0 == name && (forall j | 0 <= j < i :: Entries(v)[j].0 != name) ::
      r == (if Entries(v)[i].1.Null? then None else Some(Entries(v)[i].1))
  {
    var extracted := IndexByKey(v, name);
    if extracted.Null? then None else Some(extracted)
  }

  /**
   * `get_index`: the member at `index` of an array, except that a position
   * out of range, a `null` member and a non-array receiver all give `None`.
   */
  function GetIndex(v: JsonValue, index: nat): (r: Option<JsonValue>)
    ensures r.Some? <==> v.Arr? && index < |v.members| && !v.members[index].Null?
    ensures r.Some? ==> r.value == v.members[index]
  {
    var extracted := IndexByPosition(v, index);
    if extracted.Null? then None else Some(extracted)
  }

  /** The `json` crate's value type as an implementation of the accessor contract. */
  const Json: JT.Adapter<JsonValue> :=
    JT.Adapter(AsArray, AsBoolean, AsInteger, AsNull, AsNumber, AsObject, AsString,
               GetAttribute, GetIndex, Items)

  /** The kind a value has, read off its shape: whole numbers are integers. */
  function NaturalKind(v: JsonValue): JT.Kind {
    match v
    case Null => JT.Null
    case Bool(_) => JT.Boolean
    case Num(x) => if IsWhole(x) then JT.Integer else JT.Number
    case Str(_) => JT.String
    case Arr(_) => JT.Array
    case Obj(_) => JT.Object
  }

  /**
   * Exactly the value's own kind holds of it, plus Number for every number:
   * the kinds are exclusive except that a whole number is both Integer and
   * Number.
   */
  lemma KindsOfValue(v: JsonValue, k: JT.Kind)
    ensures JT.Holds(Json, v, k) <==> k == NaturalKind(v) || (k == JT.Number && v.Num?)
  {
  }

  /** The `json` adapter honours the contract: every value has a kind. */
  lemma JsonIsLawful()
    ensures JT.Lawful(Json)
  {
    forall v: JsonValue ensures JT.SomeKindHolds(Json, v) {
      KindsOfValue(v, NaturalKind(v));
    }
  }

  /** Classification of a `json` value is its own kind; a whole number is Integer, not Number. */
  lemma PrimitiveTypeOfValue(v: JsonValue)
    ensures JT.SomeKindHolds(Json, v)
    ensures JT.PrimitiveType(Json, v) == NaturalKind(v)
  {
    JsonIsLawful();
    var k := NaturalKind(v);
    KindsOfValue(v, k);
    forall j: JT.Kind | JT.Rank(j) < JT.Rank(k) ensures !JT.Holds(Json, v, j) {
      KindsOfValue(v, j);
    }
    JT.PrimitiveTypeUnique(Json, v, k);
  }

  lemma PrimitiveTypeExamples()
    ensures JT.PrimitiveType(Json, Arr([])) == JT.Array
    ensures JT.PrimitiveType(Json, Bool(true)) == JT.Boolean
    ensures JT.PrimitiveType(Json, Num(1.0)) == JT.Integer
    ensures JT.PrimitiveType(Json, Null) == JT.Null
    ensures JT.PrimitiveType(Json, Num(1.2)) == JT.Number
    ensures JT.PrimitiveType(Json, Obj([("prop", Str("value"))])) == JT.Object
    ensures JT.PrimitiveType(Json, Str("string")) == JT.String
  {
    PrimitiveTypeOfValue(Arr([]));
    PrimitiveTypeOfValue(Bool(true));
    PrimitiveTypeOfValue(Num(1.0));
    PrimitiveTypeOfValue(Null);
    PrimitiveTypeOfValue(Num(1.2));
    PrimitiveTypeOfValue(Obj([("prop", Str("value"))]));
    PrimitiveTypeOfValue(Str("string"));
  }

  /** `as_integer` gives `i` exactly for the number `i`. */
  lemma AsIntegerExact(v: JsonValue, i: int)
    ensures AsInteger(v) == Some(i) <==> v == Num(i as real)
  {
  }

  /** Every integer is a number. */
  lemma IntegerIsNumber(v: JsonValue)
    ensures JT.IsInteger(Json, v) ==> JT.IsNumber(Json, v)
  {
  }

  lemma AsIntegerExamples()
    ensures AsInteger(Num(1.0)) == Some(1)
    ensures AsInteger(Num(1.2)) == None && AsNumber(Num(1.2)) == Some(1.2)
    ensures AsInteger(Str("1")) == None && AsNumber(Str("1")) == None
  {
    AsIntegerExact(Num(1.0), 1);
    assert (1.2).Floor == 1;
  }

  /** `has_attribute` holds exactly when the first binding of `name` in an object is not `null`. */
  lemma HasAttributeOfValue(v: JsonValue, name: string)
    ensures JT.HasAttribute(Json, v, name) <==>
      v.Obj? && FindKey(v.entries, name).Some? && !v.entries[FindKey(v.entries, name).value].1.Null?
  {
  }

  lemma AttributeExamples()
    ensures GetAttribute(Obj([("present", Num(1.0))]), "present") == Some(Num(1.0))
    ensures GetAttribute(Obj([("present", Num(1.0))]), "not-present") == None
    ensures GetAttribute(Obj([("present", Null)]), "present") == None
    ensures JT.HasAttribute(Json, Obj([("present", Num(1.0))]), "present")
    ensures !JT.HasAttribute(Json, Obj([("present", Num(1.0))]), "not-present")
    ensures !JT.HasAttribute(Json, Arr([Num(1.0), Num(2.0), Num(3.0)]), "not-present")
  {
    assert "present" != "not-present";
  }

  lemma IndexExamples()
    ensures GetIndex(Arr([Num(0.0), Num(1.0), Num(2.0)]), 1) == Some(Num(1.0))
    ensures GetIndex(Arr([Num(0.0), Num(1.0), Num(2.0)]), 4) == None
    ensures GetIndex(Arr([Num(0.0), Null]), 1) == None
  {
  }

  /**
   * The array view and the index lookup agree: position `i` of `as_array`
   * is what `get_index` returns there, unless that member is `null`.
   */
  lemma ArrayAgreesWithIndex(v: JsonValue, i: nat)
    requires AsArray(v).Some? && i < |AsArray(v).value|
    ensures GetIndex(v, i) == (if AsArray(v).value[i].Null? then None else Some(AsArray(v).value[i]))
  {
  }

  /**
   * The map view of an object enumerates its entries in order, and its own
   * `keys` and `values` agree with the projections of `items`.
   */
  lemma MapViewOfObject(v: JsonValue)
    requires v.Obj?
    ensures Items(AsObject(v).value) == v.entries
    ensures Keys(AsObject(v).value) == JT.Keys(Json, AsObject(v).value)
    ensures Values(AsObject(v).value) == JT.Values(Json, AsObject(v).value)
  {
  }

  lemma MapViewExample()
    ensures var m := JT.NewMap(Obj([("k1", Str("v1")), ("k2", Str("v2"))]));
      && Keys(m) == ["k1", "k2"]
      && Values(m) == [Str("v1"), Str("v2")]
      && Items(m) == [("k1", Str("v1")), ("k2", Str("v2"))]
  {
  }

  /**
   * One step of the fragment walk on a `json` value misses exactly when the
   * value is neither object nor array, the object has no non-null binding
   * for the component, or the component is not an index of a non-null
   * member of the array; otherwise it yields a value bound in the object
   * or a member of the array.
   */
  lemma StepOfValue(v: JsonValue, part: string)
    ensures JT.Lawful(Json)
    ensures JT.Step(Json, Some(v), part).None? <==>
      || (!v.Obj? && !v.Arr?)
      || (v.Obj? && (FindKey(v.entries, part).None? || v.entries[FindKey(v.entries, part).value].1.Null?))
      || (v.Arr? && (Fragment.ParseIndex(part).None? || Fragment.ParseIndex(part).value >= |v.members|
                     || v.members[Fragment.ParseIndex(part).value].Null?))
    ensures JT.Step(Json, Some(v), part).Some? ==>
      || (v.Obj? && (part, JT.Step(Json, Some(v), part).value) in v.entries)
      || (v.Arr? && JT.Step(Json, Some(v), part).value in v.members)
  {
    JsonIsLawful();
    PrimitiveTypeOfValue(v);
  }

  /** The value the fragment tests walk: `{"key": {"inner_key": [1, "2"]}}`. */
  const TestRoot: JsonValue :=
    Obj([("key", Obj([("inner_key", Arr([Num(1.0), Str("2")]))]))])

  /** Resolving a fragment against a `json` value, with the adapter's contract discharged. */
  function FragmentOf(root: JsonValue, fragment: string): Option<JsonValue> {
    JsonIsLawful();
    JT.Resolve(Json, Some(root), Fragment.Components(fragment))
  }

  /** The single steps the fragment tests take through `TestRoot`. */
  lemma TestRootSteps()
    ensures JT.Lawful(Json)
    ensures JT.Step(Json, Some(TestRoot), "key") == Some(Obj([("inner_key", Arr([Num(1.0), Str("2")]))]))
    ensures JT.Step(Json, Some(Obj([("inner_key", Arr([Num(1.0), Str("2")]))])), "inner_key")
         == Some(Arr([Num(1.0), Str("2")]))
    ensures JT.Step(Json, Some(Arr([Num(1.0), Str("2")])), "0") == Some(Num(1.0))
    ensures JT.Step(Json, Some(Arr([Num(1.0), Str("2")])), "1") == Some(Str("2"))
    ensures JT.Step(Json, Some(Arr([Num(1.0), Str("2")])), "2") == None
    ensures JT.Step(Json, Some(Arr([Num(1.0), Str("2")])), "a") == None
  {
    JsonIsLawful();
    PrimitiveTypeOfValue(TestRoot);
    PrimitiveTypeOfValue(Obj([("inner_key", Arr([Num(1.0), Str("2")]))]));
    PrimitiveTypeOfValue(Arr([Num(1.0), Str("2")]));
    assert Fragment.DecimalValue("0") == 0;
    assert Fragment.DecimalValue("1") == 1;
    assert Fragment.DecimalValue("2") == 2;
    assert !Fragment.IsDigit("a"[0]);
  }

  /** A key the test root does not bind. */
  lemma TestRootMissingKey(key: string)
    requires key != "key"
    ensures JT.Lawful(Json)
    ensures JT.Step(Json, Some(TestRoot), key) == None
  {
    JsonIsLawful();
    PrimitiveTypeOfValue(TestRoot);
  }

  /** Splitting a one-component fragment. */
  lemma ComponentsOfOne(c: string)
    requires Fragment.IsComponent(c)
    ensures Fragment.Components("/" + c) == [c]
  {
    assert Fragment.Pointer([c]) == "/" + c;
    Fragment.ComponentsOfPointer([c]);
  }

  /** Splitting a two-component fragment. */
  lemma ComponentsOfTwo(c: string, d: string)
    requires Fragment.IsComponent(c) && Fragment.IsComponent(d)
    ensures Fragment.Components("/" + c + "/" + d) == [c, d]
  {
    assert Fragment.Pointer([c, d][1..]) == "/" + d;
    assert Fragment.Pointer([c, d]) == "/" + c + "/" + d;
    Fragment.ComponentsOfPointer([c, d]);
  }

  /** Splitting `"/key/inner_key/" + last` for a one-character `last`. */
  lemma TestComponentsIndexed(last: string)
    requires |last| == 1 && last[0] != '/'
    ensures Fragment.Components("/key/inner_key/" + last) == ["key", "inner_key", last]
  {
    var parts := ["key", "inner_key", last];
    assert Fragment.Pointer(parts) == "/key/inner_key/" + last by {
      assert Fragment.Pointer(parts[3..]) == [];
      assert Fragment.Pointer(parts[2..]) == "/" + last;
      assert Fragment.Pointer(parts[1..]) == "/inner_key" + Fragment.Pointer(parts[2..]);
    }
    Fragment.ComponentsOfPointer(parts);
  }

  lemma FragmentExampleRoot()
    ensures FragmentOf(TestRoot, "") == Some(TestRoot)
  {
    Fragment.ComponentsOfPointer([]);
  }

  /** A one-component fragment takes one step from the root. */
  lemma FragmentOfOne(root: JsonValue, c: string)
    requires Fragment.IsComponent(c)
    ensures JT.Lawful(Json)
    ensures FragmentOf(root, "/" + c) == JT.Step(Json, Some(root), c)
  {
    JsonIsLawful();
    ComponentsOfOne(c);
    var parts := [c];
    var r := JT.Step(Json, Some(root), c);
    assert JT.Resolve(Json, r, parts[1..]) == r;
  }

  /** A two-component fragment takes two steps from the root. */
  lemma FragmentOfTwo(root: JsonValue, c: string, d: string)
    requires Fragment.IsComponent(c) && Fragment.IsComponent(d)
    ensures JT.Lawful(Json)
    ensures FragmentOf(root, "/" + c + "/" + d) == JT.Step(Json, JT.Step(Json, Some(root), c), d)
  {
    JsonIsLawful();
    ComponentsOfTwo(c, d);
    var parts := [c, d];
    var r := JT.Step(Json, JT.Step(Json, Some(root), c), d);
    assert JT.Resolve(Json, r, parts[2..]) == r;
    assert JT.Resolve(Json, JT.Step(Json, Some(root), c), parts[1..]) == r;
  }

  lemma FragmentExampleKey()
    ensures FragmentOf(TestRoot, "/key") == Some(Obj([("inner_key", Arr([Num(1.0), Str("2")]))]))
  {
    TestRootSteps();
    FragmentOfOne(TestRoot, "key");
    assert "/" + "key" == "/key";
  }

  lemma FragmentExampleNotPresent()
    ensures FragmentOf(TestRoot, "/not_present") == None
  {
    TestRootMissingKey("not_present");
    FragmentOfOne(TestRoot, "not_present");
    assert "/" + "not_present" == "/not_present";
  }

  lemma FragmentExampleInnerKey()
    ensures FragmentOf(TestRoot, "/key/inner_key") == Some(Arr([Num(1.0), Str("2")]))
  {
    TestRootSteps();
    FragmentOfTwo(TestRoot, "key", "inner_key");
    assert "/" + "key" + "/" + "inner_key" == "/key/inner_key";
  }

  /** Resolving `["key", "inner_key", last]` from `TestRoot` is the last step into the array. */
  lemma TestRootIndexed(last: string)
    requires |last| == 1 && last[0] != '/'
    ensures JT.Lawful(Json)
    ensures FragmentOf(TestRoot, "/key/inner_key/" + last) == JT.Step(Json, Some(Arr([Num(1.0), Str("2")])), last)
  {
    TestRootSteps();
    TestComponentsIndexed(last);
    var parts := ["key", "inner_key", last];
    var r := JT.Step(Json, Some(Arr([Num(1.0), Str("2")])), last);
    JT.ResolveAbsent(Json, []);
    assert JT.Resolve(Json, r, parts[3..]) == r;
    assert JT.Resolve(Json, Some(Arr([Num(1.0), Str("2")])), parts[2..]) == r;
    assert JT.Resolve(Json, Some(Obj([("inner_key", Arr([Num(1.0), Str("2")]))])), parts[1..]) == r;
  }

  lemma FragmentExampleFirstMember()
    ensures FragmentOf(TestRoot, "/key/inner_key/0") == Some(Num(1.0))
  {
    TestRootSteps();
    TestRootIndexed("0");
    assert "/key/inner_key/" + "0" == "/key/inner_key/0";
  }

  lemma FragmentExampleSecondMember()
    ensures FragmentOf(TestRoot, "/key/inner_key/1") == Some(Str("2"))
  {
    TestRootSteps();
    TestRootIndexed("1");
    assert "/key/inner_key/" + "1" == "/key/inner_key/1";
  }

  lemma FragmentExampleNotAnIndex()
    ensures FragmentOf(TestRoot, "/key/inner_key/a") == None
  {
    TestRootSteps();
    TestRootIndexed("a");
    assert "/key/inner_key/" + "a" == "/key/inner_key/a";
  }

  lemma FragmentExampleOutOfRange()
    ensures FragmentOf(TestRoot, "/key/inner_key/2") == None
  {
    TestRootSteps();
    TestRootIndexed("2");
    assert "/key/inner_key/" + "2" == "/key/inner_key/2";
  }
}
