/**
 * The read-only JSON value abstraction: the seven primitive kinds, the
 * accessor contract every concrete value type supplies, the behaviour
 * derived once from those accessors, the map view and the fragment resolver.
 */
module JsonTypes {
  import opened Wrappers
  import opened Fragment

  /** The seven primitive kinds (`EnumJsonType`). */
  datatype Kind = Array | Boolean | Integer | Null | Number | Object | String

  /** The fixed lower-case name of a kind. */
  function ToType(k: Kind): (name: string)
    ensures |name| > 0 && forall i | 0 <= i < |name| :: 'a' <= name[i] <= 'z'
  {
    match k
    case Array => "array"
    case Boolean => "boolean"
    case Integer => "integer"
    case Null => "null"
    case Number => "number"
    case Object => "object"
    case String => "string"
  }

  /**
   * Exact, case-sensitive lookup of a kind by name: a string names a kind
   * exactly when it is that kind's name; every other string gives `None`.
   */
  function FromType(s: string): (r: Option<Kind>)
    ensures forall k :: r == Some(k) <==> s == ToType(k)
  {
    if s == "array" then Some(Array)
    else if s == "boolean" then Some(Boolean)
    else if s == "integer" then Some(Integer)
    else if s == "null" then Some(Null)
    else if s == "number" then Some(Number)
    else if s == "object" then Some(Object)
    else if s == "string" then Some(String)
    else None
  }

  /** Every kind's name reads back as that kind. */
  lemma FromTypeOfToType(k: Kind)
    ensures FromType(ToType(k)) == Some(k)
  {
  }

  /** Distinct kinds have distinct names. */
  lemma ToTypeInjective(a: Kind, b: Kind)
    ensures ToType(a) == ToType(b) ==> a == b
  {
    FromTypeOfToType(a);
    FromTypeOfToType(b);
  }

  lemma FromTypeExamples()
    ensures FromType("array") == Some(Array) && FromType("integer") == Some(Integer)
    ensures FromType("number") == Some(Number) && FromType("null") == Some(Null)
    ensures FromType("object") == Some(Object) && FromType("string") == Some(String)
    ensures FromType("an invalid type") == None && FromType("Array") == None
  {
    assert "an invalid type" != ToType(Array);
  }

  /**
   * A non-owning view of a value believed to be an object (`JsonMap`);
   * building one does not check that the target is an object.
   */
  datatype JsonMap<T> = JsonMap(target: T)

  /** `JsonMap::new`: the view over `target`, which derefs back to it. */
  function NewMap<T>(target: T): (m: JsonMap<T>)
    ensures Deref(m) == target
  {
    JsonMap(target)
  }

  /** `Deref` of a map view: the value it wraps. */
  function Deref<T>(m: JsonMap<T>): T {
    m.target
  }

  /**
   * The primitive accessors a concrete value type `T` must supply: the
   * seven `as_*` conversions, attribute and index lookup, and the map
   * view's `items`.  Numbers are real numbers here.
   */
  datatype Adapter<!T> = Adapter(
    asArray: T -> Option<seq<T>>,
    asBoolean: T -> Option<bool>,
    asInteger: T -> Option<int>,
    asNull: T -> Option<()>,
    asNumber: T -> Option<real>,
    asObject: T -> Option<JsonMap<T>>,
    asString: T -> Option<string>,
    getAttribute: (T, string) -> Option<T>,
    getIndex: (T, nat) -> Option<T>,
    items: JsonMap<T> -> seq<(string, T)>)

  // The derived predicates: each holds exactly when its accessor gives a value.

  predicate IsArray<T>(acc: Adapter<T>, v: T) { acc.asArray(v).Some? }
  predicate IsBoolean<T>(acc: Adapter<T>, v: T) { acc.asBoolean(v).Some? }
  predicate IsInteger<T>(acc: Adapter<T>, v: T) { acc.asInteger(v).Some? }
  predicate IsNull<T>(acc: Adapter<T>, v: T) { acc.asNull(v).Some? }
  predicate IsNumber<T>(acc: Adapter<T>, v: T) { acc.asNumber(v).Some? }
  predicate IsObject<T>(acc: Adapter<T>, v: T) { acc.asObject(v).Some? }
  predicate IsString<T>(acc: Adapter<T>, v: T) { acc.asString(v).Some? }

  predicate HasAttribute<T>(acc: Adapter<T>, v: T, name: string) {
    acc.getAttribute(v, name).Some?
  }

  /** The predicate that belongs to kind `k`. */
  predicate Holds<T>(acc: Adapter<T>, v: T, k: Kind) {
    match k
    case Array => IsArray(acc, v)
    case Boolean => IsBoolean(acc, v)
    case Integer => IsInteger(acc, v)
    case Null => IsNull(acc, v)
    case Number => IsNumber(acc, v)
    case Object => IsObject(acc, v)
    case String => IsString(acc, v)
  }

  /** Position of a kind in the classification priority order. */
  function Rank(k: Kind): nat {
    match k
    case Array => 0
    case Boolean => 1
    case Integer => 2
    case Null => 3
    case Number => 4
    case Object => 5
    case String => 6
  }

  /** At least one of the seven predicates holds of `v`. */
  predicate SomeKindHolds<T>(acc: Adapter<T>, v: T) {
    IsArray(acc, v) || IsBoolean(acc, v) || IsInteger(acc, v) || IsNull(acc, v)
    || IsNumber(acc, v) || IsObject(acc, v) || IsString(acc, v)
  }

  /**
   * An adapter honours the contract when every value has some kind; the
   * classification of a value with none is a defect of the adapter.
   */
  ghost predicate Lawful<T(!new)>(acc: Adapter<T>) {
    forall v: T :: SomeKindHolds(acc, v)
  }

  /**
   * `primitive_type`: the first kind, in the order Array, Boolean, Integer,
   * Null, Number, Object, String, whose predicate holds of `v`.
   */
  function PrimitiveType<T>(acc: Adapter<T>, v: T): (k: Kind)
    requires SomeKindHolds(acc, v)
    ensures Holds(acc, v, k)
    ensures forall j :: Rank(j) < Rank(k) ==> !Holds(acc, v, j)
  {
    if IsArray(acc, v) then Array
    else if IsBoolean(acc, v) then Boolean
    else if IsInteger(acc, v) then Integer
    else if IsNull(acc, v) then Null
    else if IsNumber(acc, v) then Number
    else if IsObject(acc, v) then Object
    else if IsString(acc, v) then String
    else assert false; String
  }

  /** The classification is the only kind that holds and beats every other that holds. */
  lemma PrimitiveTypeUnique<T>(acc: Adapter<T>, v: T, k: Kind)
    requires Holds(acc, v, k)
    requires forall j :: Rank(j) < Rank(k) ==> !Holds(acc, v, j)
    ensures PrimitiveType(acc, v) == k
  {
    var r := PrimitiveType(acc, v);
    assert Rank(r) == Rank(k) by {
      assert !(Rank(r) < Rank(k));
      assert !(Rank(k) < Rank(r));
    }
  }

  /** The keys of a map view, projected from its items. */
  function Keys<T>(acc: Adapter<T>, m: JsonMap<T>): seq<string> {
    var items := acc.items(m);
    seq(|items|, i requires 0 <= i < |items| => items[i].0)
  }

  /** The values of a map view, projected from its items. */
  function Values<T>(acc: Adapter<T>, m: JsonMap<T>): seq<T> {
    var items := acc.items(m);
    seq(|items|, i requires 0 <= i < |items| => items[i].1)
  }

  /** Keys, values and items have one length and pair up position by position. */
  lemma KeysValuesPairItems<T>(acc: Adapter<T>, m: JsonMap<T>)
    ensures |Keys(acc, m)| == |acc.items(m)| == |Values(acc, m)|
    ensures forall i | 0 <= i < |acc.items(m)| :: acc.items(m)[i] == (Keys(acc, m)[i], Values(acc, m)[i])
  {
  }

  /**
   * One step of the fragment walk: an object is entered by attribute, an
   * array by a component that parses as an index, anything else fails.
   */
  function Step<T(!new)>(acc: Adapter<T>, cur: Option<T>, part: string): Option<T>
    requires Lawful(acc)
  {
    match cur
    case None => None
    case Some(v) =>
      match PrimitiveType(acc, v)
      case Object => acc.getAttribute(v, part)
      case Array =>
        (match ParseIndex(part)
         case Some(index) => acc.getIndex(v, index)
         case None => None)
      case _ => None
  }

  /** The value reached from `cur` by the components `parts`, in order. */
  function Resolve<T(!new)>(acc: Adapter<T>, cur: Option<T>, parts: seq<string>): Option<T>
    requires Lawful(acc)
    decreases |parts|
  {
    if parts == [] then cur else Resolve(acc, Step(acc, cur, parts[0]), parts[1..])
  }

  /** Once the walk has missed, it stays missed. */
  lemma {:induction false} ResolveAbsent<T(!new)>(acc: Adapter<T>, parts: seq<string>)
    requires Lawful(acc)
    ensures Resolve(acc, None, parts) == None
    decreases |parts|
  {
    if parts != [] {
      ResolveAbsent(acc, parts[1..]);
    }
  }

  /** Resolving `p + q` is resolving `q` from where `p` leads. */
  lemma {:induction false} ResolveAppend<T(!new)>(acc: Adapter<T>, cur: Option<T>, p: seq<string>, q: seq<string>)
    requires Lawful(acc)
    ensures Resolve(acc, cur, p + q) == Resolve(acc, Resolve(acc, cur, p), q)
    decreases |p|
  {
    if p == [] {
      assert p + q == q;
    } else {
      assert (p + q)[0] == p[0] && (p + q)[1..] == p[1..] + q;
      ResolveAppend(acc, Step(acc, cur, p[0]), p[1..], q);
    }
  }

  /** The empty fragment, and a lone '/', name the root itself. */
  lemma RootFragment<T(!new)>(acc: Adapter<T>, root: T)
    requires Lawful(acc)
    ensures Resolve(acc, Some(root), Components("")) == Some(root)
    ensures Resolve(acc, Some(root), Components("/")) == Some(root)
  {
    assert Components("/") == [];
  }

  /**
   * `get_fragment`: walks the components of `fragment` from `root`,
   * reassigning the current result at each component.
   */
  method GetFragment<T(!new)>(acc: Adapter<T>, root: T, fragment: string) returns (result: Option<T>)
    requires Lawful(acc)
    ensures result == Resolve(acc, Some(root), Components(fragment))
  {
    var parts := Components(fragment);
    result := Some(root);
    for i := 0 to |parts|
      invariant Resolve(acc, result, parts[i..]) == Resolve(acc, Some(root), parts)
    {
      if result.Some? {
        var value := result.value;
        match PrimitiveType(acc, value) {
          case Object =>
            result := acc.getAttribute(value, parts[i]);
          case Array =>
            var index := ParseIndex(parts[i]);
            result := if index.Some? then acc.getIndex(value, index.value) else None;
          case _ =>
            result := None;
        }
      }
    }
  }
}
