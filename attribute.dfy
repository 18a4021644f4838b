/**
 * The Attribute descriptor of a model class: its construction from an options
 * record, `apply`, which resolves the type against the class's registry and
 * installs an accessor on the class's prototype, and the accessor's setter and
 * getter over an instance's attribute map.
 */
module Attributes {
  import opened Wrappers
  import opened JsValues
  import opened TypeRegistry

  /** A `type` option: a registry name, or a factory or constructor function, known by its source text. */
  datatype AttrType = TypeName(name: string) | TypeFunction(source: string)

  /** ToBoolean of a `type` option: only the empty name is falsy; a function is always truthy. */
  predicate TypeTruthy(t: AttrType)
  {
    t.TypeFunction? || t.name != ""
  }

  /** The options record; `persist` is any value, Undefined when not given. */
  datatype Options = Options(name: Option<string>, typ: Option<AttrType>, persist: JsValue)

  /** The record `{}` that `attr()` substitutes for missing options. */
  const NoOptions := Options(None, None, Undefined)

  /** The three settings the constructor may copy from the options. */
  datatype Settings = Settings(name: Option<string>, typ: Option<AttrType>, persist: bool)

  /** The field initialisers: no name, no type, persisted. */
  const Defaults := Settings(None, None, true)

  /**
   * The settings an Attribute ends up with: the defaults, with `name` and
   * `type` replaced only by truthy options and `persist` by the boolean of any
   * option that is not undefined.
   */
  function SettingsOf(options: Option<Options>): (s: Settings)
    ensures options.None? ==> s == Defaults
    ensures options.Some? ==>
      var o := options.value;
      && (s.name.Some? <==> o.name.Some? && o.name.value != "")
      && (s.name.Some? ==> s.name == o.name)
      && (s.typ.Some? <==> o.typ.Some? && TypeTruthy(o.typ.value))
      && (s.typ.Some? ==> s.typ == o.typ)
      && s.persist == (o.persist == Undefined || Truthy(o.persist))
  {
    match options
    case None => Defaults
    case Some(o) =>
      Settings(
        if o.name.Some? && o.name.value != "" then o.name else Defaults.name,
        if o.typ.Some? && TypeTruthy(o.typ.value) then o.typ else Defaults.typ,
        if o.persist != Undefined then Truthy(o.persist) else Defaults.persist)
  }

  /** Options with nothing set leave every default in place, just as no options do. */
  lemma EmptyOptionsAreDefaults(o: Options)
    requires (o.name.None? || o.name == Some("")) && o.typ.None? && o.persist == Undefined
    ensures SettingsOf(Some(o)) == SettingsOf(None) == Defaults
  {
  }

  /** The property key an Attribute installs under: its name, or "undefined" when it has none. */
  function Key(name: Option<string>): (k: string)
    ensures name.Some? ==> k == name.value
    ensures name.None? ==> k == "undefined"
  {
    if name.Some? then name.value else "undefined"
  }

  /** The registry key `_typecast` reads: String(this.type). */
  function TypeKey(t: Option<AttrType>): (k: string)
    ensures t.None? ==> k == "undefined"
    ensures t.Some? && t.value.TypeName? ==> k == t.value.name
    ensures t.Some? && t.value.TypeFunction? ==> k == t.value.source
  {
    match t
    case None => "undefined"
    case Some(TypeName(n)) => n
    case Some(TypeFunction(src)) => src
  }

  /** A property descriptor on a prototype: an accessor that forwards to an Attribute. */
  datatype PropDesc = Accessor(attribute: Attribute, enumerable: bool, configurable: bool)

  /** A model class: its type registry (`ModelClass.types`) and the accessors on its prototype. */
  class ModelClass {
    const types: Registry
    var prototype: map<string, PropDesc>

    constructor(types: Registry)
      ensures this.types == types && prototype == map[]
    {
      this.types := types;
      prototype := map[];
    }
  }

  /** A model instance: its class (`klass`) and its private `_attributes` map. */
  class ModelInstance {
    const klass: ModelClass
    var attributes: map<string, JsValue>

    constructor(klass: ModelClass)
      ensures this.klass == klass && attributes == map[]
    {
      this.klass := klass;
      attributes := map[];
    }
  }

  class Attribute {
    var isRelationship: bool
    var name: Option<string>
    var typ: Option<AttrType>
    var typeClass: Option<TypeTag>
    var persist: bool

    /** The constructor: the defaults, then what SettingsOf copies from the options. */
    constructor(options: Option<Options>)
      ensures Settings(name, typ, persist) == SettingsOf(options)
      ensures !isRelationship && typeClass.None?
    {
      isRelationship := false;
      name := None;
      typ := None;
      typeClass := None;
      persist := true;
      if options.Some? {
        var o := options.value;
        if o.name.Some? && o.name.value != "" {
          name := o.name;
        }
        if o.typ.Some? && TypeTruthy(o.typ.value) {
          typ := o.typ;
        }
        if o.persist != Undefined {
          persist := Truthy(o.persist);
        }
      }
    }

    /** descriptor(): an enumerable, configurable accessor whose get and set call this Attribute. */
    function Descriptor(): (d: PropDesc)
      ensures d.attribute == this && d.enumerable && d.configurable
    {
      Accessor(this, true, true)
    }

    /**
     * apply: a string type must be registered in the class's registry, and
     * otherwise the error is thrown before anything changes; a registered one
     * becomes `typeClass`. Then the accessor is installed under the key of
     * `name`, whatever the type.
     */
    method Apply(modelClass: ModelClass) returns (r: Result<()>)
      modifies this, modelClass
      ensures unchanged(this`name) && unchanged(this`typ) && unchanged(this`persist) && unchanged(this`isRelationship)
      ensures typ.Some? && typ.value.TypeName? && modelClass.types.Get(typ.value.name).Err? ==>
        && r == Err(TypeNotFound(typ.value.name))
        && typeClass == old(typeClass)
        && modelClass.prototype == old(modelClass.prototype)
      ensures typ.Some? && typ.value.TypeName? && modelClass.types.Get(typ.value.name).Ok? ==>
        && r == Ok(())
        && typeClass == Some(modelClass.types.Get(typ.value.name).value)
        && modelClass.prototype == old(modelClass.prototype)[Key(name) := Descriptor()]
      ensures !(typ.Some? && typ.value.TypeName?) ==>
        && r == Ok(())
        && typeClass == old(typeClass)
        && modelClass.prototype == old(modelClass.prototype)[Key(name) := Descriptor()]
    {
      if typ.Some? && typ.value.TypeName? {
        var found := modelClass.types.Get(typ.value.name);
        if found.Err? {
          return Err(TypeNotFound(typ.value.name));
        }
        typeClass := Some(found.value);
      }
      modelClass.prototype := modelClass.prototype[Key(name) := Descriptor()];
      r := Ok(());
    }

    /** setter: stores the value as it is under the attribute's key; no other key changes. */
    method Setter(context: ModelInstance, val: JsValue)
      modifies context
      ensures context.attributes == old(context.attributes)[Key(name) := val]
      ensures forall k :: k != Key(name) ==>
        (k in context.attributes <==> k in old(context.attributes))
        && (k in context.attributes ==> context.attributes[k] == old(context.attributes)[k])
    {
      context.attributes := context.attributes[Key(name) := val];
    }

    /** The stored value of the attribute; a key never set reads as undefined. */
    function Raw(context: ModelInstance): (v: JsValue)
      reads this, context
      ensures Key(name) in context.attributes ==> v == context.attributes[Key(name)]
      ensures Key(name) !in context.attributes ==> v == Undefined
    {
      if Key(name) in context.attributes then context.attributes[Key(name)] else Undefined
    }

    /**
     * getter: the stored value passed through `_typecast`, that is, through the
     * deserialize of the strategy registered under the type key at read time,
     * or returned as it is when none is registered there.
     */
    function Getter(context: ModelInstance): (v: JsValue)
      reads this, context, context.klass, context.klass.types
      ensures context.klass.types.Get(TypeKey(typ)).Ok? ==>
        v == Deserialize(context.klass.types.Get(TypeKey(typ)).value, Raw(context))
      ensures context.klass.types.Get(TypeKey(typ)).Err? ==> v == Raw(context)
    {
      Typecast(context, Raw(context))
    }

    /**
     * _typecast: the strategy under String(type) in the instance's class
     * registry, looked up again on every read, deserializes the value; with
     * no strategy there the value is returned as it is.
     */
    function Typecast(model: ModelInstance, value: JsValue): (v: JsValue)
      reads this, model.klass, model.klass.types
      ensures model.klass.types.Get(TypeKey(typ)).Ok? ==>
        v == Deserialize(model.klass.types.Get(TypeKey(typ)).value, value)
      ensures model.klass.types.Get(TypeKey(typ)).Err? ==> v == value
    {
      match model.klass.types.Get(TypeKey(typ))
      case Ok(strategy) => Deserialize(strategy, value)
      case Err(_) => value
    }
  }

  /** attr: the factory, which gives missing options the record {}. */
  method Attr(options: Option<Options>) returns (a: Attribute)
    ensures fresh(a)
    ensures Settings(a.name, a.typ, a.persist) == SettingsOf(Some(if options.Some? then options.value else NoOptions))
    ensures !a.isRelationship && a.typeClass.None?
  {
    var o := if options.Some? then options.value else NoOptions;
    a := new Attribute(Some(o));
  }

  /** attr() and attr({}) configure the same Attribute: persisted, with no name and no type. */
  lemma AttrWithoutOptions()
    ensures SettingsOf(Some(NoOptions)) == Defaults
    ensures SettingsOf(Some(NoOptions)) == SettingsOf(None)
  {
  }

  /** Without a type, a read gives back what was stored, unless "undefined" names a registered type. */
  lemma UntypedReadIsRaw(a: Attribute, context: ModelInstance, stored: JsValue)
    requires a.typ.None? && "undefined" !in context.klass.types.all
    requires Key(a.name) in context.attributes && context.attributes[Key(a.name)] == stored
    ensures a.Getter(context) == stored
  {
  }

  /** With a registered type, a read gives the stored value through that strategy's deserialize. */
  lemma TypedReadDeserializes(a: Attribute, context: ModelInstance, tag: TypeTag)
    requires a.typ.Some? && a.typ.value.TypeName?
    requires a.typ.value.name in context.klass.types.all
    requires context.klass.types.all[a.typ.value.name] == tag
    ensures a.Getter(context) == Deserialize(tag, a.Raw(context))
  {
  }

  /**
   * Property lookup along a prototype chain, nearest prototype first: the
   * descriptor of the first prototype that has the key.
   */
  function Resolve(chain: seq<map<string, PropDesc>>, k: string): (r: Option<PropDesc>)
    ensures r.Some? <==> exists i :: 0 <= i < |chain| && k in chain[i]
  {
    if chain == [] then None
    else if k in chain[0] then Some(chain[0][k])
    else
      var r := Resolve(chain[1..], k);
      assert forall i :: 1 <= i < |chain| ==> chain[i] == chain[1..][i - 1];
      r
  }

  /**
   * An accessor installed on a class's prototype is the one an instance of any
   * subclass finds, as long as no prototype nearer the instance defines the
   * same key.
   */
  lemma {:induction false} SubclassSeesAccessor(chain: seq<map<string, PropDesc>>, base: nat, k: string)
    requires base < |chain| && k in chain[base]
    requires forall i :: 0 <= i < base ==> k !in chain[i]
    ensures Resolve(chain, k) == Some(chain[base][k])
    decreases base
  {
    if base > 0 {
      assert forall i :: 0 <= i < base - 1 ==> chain[1..][i] == chain[i + 1];
      SubclassSeesAccessor(chain[1..], base - 1, k);
      assert chain[1..][base - 1] == chain[base];
    }
  }
}
