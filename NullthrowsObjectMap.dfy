/** `nullthrowsObjectMap(object, mapFn, message?)`: reject an absent input,
    apply `mapFn` to it once, and check the mapped record as
    `nullthrowsObject` does. */
module NullthrowsObjectMap {
  import opened Values
  import opened ErrorText
  import Nullthrows
  import NullthrowsObject

  function NullthrowsObjectMap(obj: Value, mapFn: Value -> Value, message: Option<string>): (r: Result<Value>)
    ensures IsNullish(obj) ==> r == Nullthrows.Nullthrows(obj, message)
    ensures !IsNullish(obj) ==> r == NullthrowsObject.NullthrowsObject(mapFn(obj), message)
    ensures r.Ok? ==> r.value == mapFn(obj) && !IsNullish(r.value) && AllPresent(Entries(r.value.data))
  {
    match Nullthrows.Nullthrows(obj, message)
    case Err(e) => Err(e)
    case Ok(present) => NullthrowsObject.NullthrowsObject(mapFn(present), message)
  }

  /** The failure `nullthrowsObjectMap` reports, if any, independent of the message:
      the input's absence, or else the mapped record's failure. */
  function ObjectMapFailure(obj: Value, mapFn: Value -> Value): Option<Failure> {
    if IsNullish(obj) then Some(Absent(AbsentKind(obj))) else NullthrowsObject.ObjectFailure(mapFn(obj))
  }

  /** The outcome is decided by the message-free failure; the message wraps its text once. */
  lemma ObjectMapMatchesFailure(obj: Value, mapFn: Value -> Value, message: Option<string>)
    ensures NullthrowsObjectMap(obj, mapFn, message).Ok? <==> ObjectMapFailure(obj, mapFn).None?
    ensures NullthrowsObjectMap(obj, mapFn, message).Err? ==>
      NullthrowsObjectMap(obj, mapFn, message).msg == Wrap(message, Render(ObjectMapFailure(obj, mapFn).value))
  {
  }

  /** An absent input fails before `mapFn` is applied: the outcome does not depend on `mapFn`. */
  lemma MapFnNotAppliedToAbsent(obj: Value, f: Value -> Value, g: Value -> Value, message: Option<string>)
    requires IsNullish(obj)
    ensures NullthrowsObjectMap(obj, f, message) == NullthrowsObjectMap(obj, g, message)
    ensures NullthrowsObjectMap(obj, f, message) == Err(Wrap(message, Unexpected(AbsentKind(obj))))
  {
  }

  /** Properties of the input that `mapFn` does not read play no part: two inputs
      that `mapFn` maps alike have the same outcome. */
  lemma DroppedPropertiesIgnored(a: Value, b: Value, mapFn: Value -> Value, message: Option<string>)
    requires !IsNullish(a) && !IsNullish(b) && mapFn(a) == mapFn(b)
    ensures NullthrowsObjectMap(a, mapFn, message) == NullthrowsObjectMap(b, mapFn, message)
  {
  }

  /** A `mapFn` that returns an empty record always succeeds with an empty record. */
  lemma EmptyRecordSucceeds(obj: Value, mapFn: Value -> Value, message: Option<string>)
    requires !IsNullish(obj) && mapFn(obj) == Present(Obj([]))
    ensures NullthrowsObjectMap(obj, mapFn, message) == Ok(Present(Obj([])))
  {
  }

  /** An absent property in the mapped record is reported with its key, wrapped once
      by the message. */
  lemma MappedPropertyError(obj: Value, mapFn: Value -> Value, message: Option<string>, i: int)
    requires !IsNullish(obj) && mapFn(obj).Present? && mapFn(obj).data.Obj?
    requires NullthrowsObject.IsFirstAbsent(mapFn(obj).data.entries, i)
    ensures var es := mapFn(obj).data.entries;
      NullthrowsObjectMap(obj, mapFn, message) == Err(Wrap(message, Render(AbsentProperty(AbsentKind(es[i].1), es[i].0))))
  {
    NullthrowsObject.FirstAbsentKeyReported(mapFn(obj).data.entries, i, message);
  }

  /** Every error text begins with the caller's message. */
  lemma ObjectMapErrorCarriesMessage(obj: Value, mapFn: Value -> Value, m: string)
    ensures NullthrowsObjectMap(obj, mapFn, Some(m)).Err? ==> m <= NullthrowsObjectMap(obj, mapFn, Some(m)).msg
  {
    if NullthrowsObjectMap(obj, mapFn, Some(m)).Err? {
      ObjectMapMatchesFailure(obj, mapFn, Some(m));
      WrapStartsWithMessage(m, Render(ObjectMapFailure(obj, mapFn).value));
    }
  }

  /** The caller's pick-and-rename transform `(o) => ({foozy: o.foo, barzy: o.bar})`. */
  function PickRenamed(v: Value): Value {
    var es := if v.Present? && v.data.Obj? then v.data.entries else [];
    Present(Obj([("foozy", Get(es, "foo")), ("barzy", Get(es, "bar"))]))
  }

  /** `{foo: true, bar: 123, baz: null}` mapped by PickRenamed succeeds: the absent
      `baz` is dropped by `mapFn` and never checked. */
  lemma PickRenamedDropsAbsent()
    ensures NullthrowsObjectMap(Present(Obj([("foo", Present(Bool(true))), ("bar", Present(Num(123))), ("baz", Null)])), PickRenamed, None)
         == Ok(Present(Obj([("foozy", Present(Bool(true))), ("barzy", Present(Num(123)))])))
  {
    var es := [("foo", Present(Bool(true))), ("bar", Present(Num(123))), ("baz", Null)];
    assert Get(es, "bar") == Get(es[1..], "bar") == Present(Num(123));
  }
}
