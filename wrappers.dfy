/** Option and Result values shared by the other modules. */
module Wrappers {

  datatype Option<+T> = None | Some(value: T)

  /** The errors the modelled code raises, each carrying what its message names. */
  datatype Error =
    | TypeNotFound(typeName: string)   // thrown by the registry and by Attribute.apply
    | InvalidTimeValue                 // RangeError from Date.prototype.toISOString
    | NotADate                         // TypeError: the value has no toISOString method
    | NoReceiver(kind: string)         // TypeError: toISOString read from undefined or null

  /**
   * The message text of an error. The TypeError and RangeError texts are
   * those of the V8 engine; other engines word them differently.
   */
  function Message(e: Error): (m: string)
    ensures e.TypeNotFound? ==>
      && |m| == |e.typeName| + 39
      && m[..21] == "Could not find type '" && m[|m| - 18..] == "' in the registry!"
      && m[21..|m| - 18] == e.typeName
  {
    match e
    case TypeNotFound(t) =>
      var m := "Could not find type '" + t + "' in the registry!";
      assert m[21..|m| - 18] == t;
      m
    case InvalidTimeValue => "Invalid time value"
    case NotADate => "value.toISOString is not a function"
    case NoReceiver(kind) => "Cannot read properties of " + kind + " (reading 'toISOString')"
  }

  /** The message of a missing type names that type: different names give different messages. */
  lemma MessageNamesType(a: string, b: string)
    requires Message(TypeNotFound(a)) == Message(TypeNotFound(b))
    ensures a == b
  {
  }

  datatype Result<+T> = Ok(value: T) | Err(error: Error)

  /** `xs` in front of the value of `o`, or None if `o` is None. */
  function Prepend<T>(xs: seq<T>, o: Option<seq<T>>): (r: Option<seq<T>>)
    ensures r.Some? <==> o.Some?
    ensures r.Some? ==> r.value == xs + o.value
  {
    if o.Some? then Some(xs + o.value) else None
  }

  lemma PrependPrepend<T>(a: seq<T>, b: seq<T>, o: Option<seq<T>>)
    ensures Prepend(a, Prepend(b, o)) == Prepend(a + b, o)
  {
    if o.Some? {
      assert a + (b + o.value) == (a + b) + o.value;
    }
  }

  lemma PrependNothing<T>(o: Option<seq<T>>)
    ensures Prepend([], o) == o
  {
    if o.Some? {
      assert [] + o.value == o.value;
    }
  }
}
