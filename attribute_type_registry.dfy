/**
 * The attribute type registry: the coercion strategies BaseType, HashType,
 * DateType and ShortDateType, and the registry that maps type names to them.
 */
module TypeRegistry {
  import opened Wrappers
  import opened JsValues
  import Dates
  import Json
  import Uri

  /** The strategy classes; each one is a triple of serialize, serializeFilter and deserialize. */
  datatype TypeTag = BaseType | HashType | DateType | ShortDateType

  /**
   * serialize. BaseType and HashType return the value itself. DateType, and
   * ShortDateType which inherits from it, call toISOString: a RangeError for an
   * Invalid Date, and a TypeError for any other value: either the method is
   * missing, or the value is undefined or null and has no properties to read.
   */
  function Serialize(tag: TypeTag, v: JsValue): (r: Result<JsValue>)
    ensures (tag == BaseType || tag == HashType) ==> r == Ok(v)
    ensures (tag == DateType || tag == ShortDateType) ==>
      (r.Ok? <==> v.DateV? && Dates.ValidTime(v.time))
      && (r.Ok? ==> r.value.Str? && r.value.s == Dates.IsoString(v.time))
      && (r.Err? ==>
            r.error == (if v.DateV? || v.InvalidDate? then InvalidTimeValue
                        else if v.Undefined? || v.Null? then NoReceiver(if v.Null? then "null" else "undefined")
                        else NotADate))
  {
    match tag
    case BaseType => Ok(v)
    case HashType => Ok(v)
    case _ => IsoSerialize(v)
  }

  /** DateType.serialize: value.toISOString(). */
  function IsoSerialize(v: JsValue): (r: Result<JsValue>)
  {
    match v
    case DateV(t) => if Dates.ValidTime(t) then Ok(Str(Dates.IsoString(t))) else Err(InvalidTimeValue)
    case InvalidDate => Err(InvalidTimeValue)
    case Undefined => Err(NoReceiver("undefined"))
    case Null => Err(NoReceiver("null"))
    case _ => Err(NotADate)
  }

  /**
   * serializeFilter. Only HashType differs from the identity: a value whose
   * typeof is "object" (null, objects, arrays and dates) becomes
   * encodeURIComponent(JSON.stringify(value)), and the percent-decoded result
   * is exactly the UTF-8 text of that JSON.
   */
  function SerializeFilter(tag: TypeTag, v: JsValue): (r: JsValue)
    ensures tag == HashType && TypeOf(v) == "object" ==>
      && r.Str?
      && (forall k :: 0 <= k < |r.s| ==> Uri.Unreserved(r.s[k]) || r.s[k] == '%')
      && Json.Stringify(v).Some?
      && Uri.PercentDecode(r.s) == Some(Uri.Utf8String(Json.Stringify(v).value))
    ensures !(tag == HashType && TypeOf(v) == "object") ==> r == v
  {
    if tag == HashType && TypeOf(v) == "object" then
      var json := Json.Stringify(v).value;
      Uri.DecodeEncode(json);
      Str(Uri.EncodeURIComponent(json))
    else v
  }

  /**
   * DateType.deserialize: a string is split on every non-digit, the runs are
   * handed to Date.UTC as year, month - 1, day, hours, minutes, seconds and
   * (run 6 | 0) milliseconds, and the result becomes a Date; any other value
   * is returned as it is.
   */
  function DateDeserialize(v: JsValue): (r: JsValue)
    ensures !v.Str? ==> r == v
    ensures v.Str? ==>
      && (r.DateV? || r.InvalidDate?)
      && (r.DateV? <==> Dates.ParseBySplit(v.s).Some?)
      && (r.DateV? ==> r.time == Dates.ParseBySplit(v.s).value && Dates.ValidTime(r.time))
  {
    if v.Str? then
      var t := Dates.ParseBySplit(v.s);
      if t.Some? then DateV(t.value) else InvalidDate
    else v
  }

  /**
   * deserialize. BaseType and HashType return the value; DateType parses
   * strings; ShortDateType runs the DateType parse, discards it and returns "asdf".
   */
  function Deserialize(tag: TypeTag, v: JsValue): (r: JsValue)
    ensures (tag == BaseType || tag == HashType) ==> r == v
    ensures tag == DateType ==> r == DateDeserialize(v)
    ensures tag == ShortDateType ==> r == Str("asdf")
  {
    match tag
    case BaseType => v
    case HashType => v
    case DateType => DateDeserialize(v)
    case ShortDateType =>
      var _ := DateDeserialize(v);
      Str("asdf")
  }

  /** The date strategy's round trip: a Date of a year 100..9999 serializes and deserializes to the same Date. */
  lemma DateRoundTrip(t: int)
    requires Dates.ValidTime(t) && 100 <= Dates.Decompose(t).year <= 9999
    ensures Serialize(DateType, DateV(t)).Ok?
    ensures Deserialize(DateType, Serialize(DateType, DateV(t)).value) == DateV(t)
  {
    Dates.IsoRoundTrip(t);
  }

  /** A Date-typed attribute given a Date already leaves it as it is, serialized or not. */
  lemma DateDeserializeKeepsDate(v: JsValue)
    requires v.DateV? || v.InvalidDate?
    ensures Deserialize(DateType, v) == v
  {
  }

  /** HashType's serialize and deserialize are the identity, so a hash value such as {foo: "bar"} reads back and serializes unchanged. */
  lemma HashPassesThrough(v: JsValue)
    ensures Deserialize(HashType, v) == v && Serialize(HashType, v) == Ok(v)
  {
  }

  /**
   * The hash filter of any value whose typeof is "object" (null, an object,
   * an array or a date) is exactly the encoding of its JSON text.
   */
  lemma HashFilterOfObject(v: JsValue, json: string)
    requires TypeOf(v) == "object" && Json.Stringify(v) == Some(json)
    ensures SerializeFilter(HashType, v) == Str(Uri.EncodeURIComponent(json))
  {
  }

  /** The entries a new registry starts with. */
  const Seeded: map<string, TypeTag> := map["date" := DateType, "shortDate" := ShortDateType, "hash" := HashType]

  /** AttributeTypeRegistry: the table from type names to strategies. */
  class Registry {
    var all: map<string, TypeTag>

    /** A new registry holds exactly date, shortDate and hash. */
    constructor()
      ensures all.Keys == {"date", "shortDate", "hash"}
      ensures all["date"] == DateType && all["shortDate"] == ShortDateType && all["hash"] == HashType
    {
      all := Seeded;
    }

    /** add: registers `klass` under `typeName`, replacing any earlier entry of that name. */
    method Add(typeName: string, klass: TypeTag)
      modifies this
      ensures all == old(all)[typeName := klass]
      ensures Get(typeName) == Ok(klass)
      ensures forall u :: u != typeName ==> Get(u) == old(Get(u))
    {
      all := all[typeName := klass];
    }

    /**
     * get: the strategy registered under `typeName`, or the error whose message
     * names the missing type. Only the table's own entries are found.
     */
    function Get(typeName: string): (r: Result<TypeTag>)
      reads this
      ensures r.Ok? <==> typeName in all
      ensures r.Ok? ==> r.value == all[typeName]
      ensures r.Err? ==> r.error == TypeNotFound(typeName)
    {
      if typeName in all then Ok(all[typeName]) else Err(TypeNotFound(typeName))
    }
  }

  /** The failure of get names the type: Could not find type '<t>' in the registry! */
  lemma MissingTypeMessage(r: Registry, typeName: string)
    requires typeName !in r.all
    ensures r.Get(typeName).Err?
    ensures Message(r.Get(typeName).error) == "Could not find type '" + typeName + "' in the registry!"
  {
  }

  /**
   * The properties every plain JavaScript object inherits from
   * Object.prototype. `all` is such an object, so `all[name]` finds these
   * names too.
   */
  const ObjectPrototypeNames: set<string> := {
    "constructor", "hasOwnProperty", "isPrototypeOf", "propertyIsEnumerable", "toLocaleString",
    "toString", "valueOf", "__proto__", "__defineGetter__", "__defineSetter__",
    "__lookupGetter__", "__lookupSetter__"
  }

  /** What `this.all[type]` yields on the JavaScript object: an own entry or an inherited member. */
  datatype Found = OwnEntry(tag: TypeTag) | InheritedMember(name: string)

  /**
   * get as the source writes it: the property read `this.all[type]` also sees
   * the inherited members of Object.prototype, and those are truthy functions,
   * so they pass the `!found` test.
   */
  function GetAsWritten(all: map<string, TypeTag>, typeName: string): (r: Result<Found>)
    ensures r.Ok? <==> typeName in all || typeName in ObjectPrototypeNames
    ensures typeName in all ==> r == Ok(OwnEntry(all[typeName]))
    ensures r.Err? ==> r.error == TypeNotFound(typeName)
  {
    if typeName in all then Ok(OwnEntry(all[typeName]))
    else if typeName in ObjectPrototypeNames then Ok(InheritedMember(typeName))
    else Err(TypeNotFound(typeName))
  }

  /** The written get finds a "toString" type in a new registry, where none was ever added. */
  lemma GetAsWrittenFindsToString(all: map<string, TypeTag>)
    requires all == Seeded
    ensures "toString" !in all
    ensures GetAsWritten(all, "toString") == Ok(InheritedMember("toString"))
  {
    assert "toString" in ObjectPrototypeNames;
    assert "toString" != "date" && "toString" != "shortDate" && "toString" != "hash";
  }

  /** The two lookups agree on every name that is not an Object.prototype member. */
  lemma GetAsWrittenAgrees(r: Registry, typeName: string)
    requires typeName !in ObjectPrototypeNames
    ensures GetAsWritten(r.all, typeName) == (if r.Get(typeName).Ok? then Ok(OwnEntry(r.Get(typeName).value)) else Err(TypeNotFound(typeName)))
  {
  }
}
