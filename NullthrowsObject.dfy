/** `nullthrowsObject(object, message?)`: reject an absent object, then scan its
    own enumerable entries in order and reject the first one that holds `null`
    or `undefined`. On success the object itself is returned. */
module NullthrowsObject {
  import opened Values
  import opened ErrorText
  import Decimal

  /** `i` is the first entry whose value is absent. */
  predicate IsFirstAbsent(es: seq<(string, Value)>, i: int) {
    0 <= i < |es| && IsNullish(es[i].1) && forall j :: 0 <= j < i ==> !IsNullish(es[j].1)
  }

  /** At most one entry is the first absent one. */
  lemma FirstAbsentUnique(es: seq<(string, Value)>, i: int, j: int)
    requires IsFirstAbsent(es, i) && IsFirstAbsent(es, j)
    ensures i == j
  {
  }

  /** Reference search for the first absent entry, independent of any message. */
  function FirstAbsentIndex(es: seq<(string, Value)>): (r: Option<nat>)
    ensures r.None? <==> AllPresent(es)
    ensures r.Some? ==> IsFirstAbsent(es, r.value)
  {
    if es == [] then None
    else if IsNullish(es[0].1) then Some(0)
    else match FirstAbsentIndex(es[1..])
      case None => None
      case Some(i) => Some(i + 1)
  }

  /** The failure an entry list reports, if any: the first absent entry's kind and key. */
  function PropertyFailure(es: seq<(string, Value)>): Option<Failure> {
    match FirstAbsentIndex(es)
    case None => None
    case Some(i) => Some(AbsentProperty(AbsentKind(es[i].1), es[i].0))
  }

  /** The failure `nullthrowsObject` reports for `obj`, if any. */
  function ObjectFailure(obj: Value): Option<Failure> {
    if IsNullish(obj) then Some(Absent(AbsentKind(obj)))
    else PropertyFailure(Entries(obj.data))
  }

  /** Past a present first entry, the reported failure is that of the rest. */
  lemma PropertyFailureStep(es: seq<(string, Value)>)
    requires es != [] && !IsNullish(es[0].1)
    ensures PropertyFailure(es) == PropertyFailure(es[1..])
  {
    var r := FirstAbsentIndex(es[1..]);
    if r.Some? {
      assert es[1..][r.value] == es[r.value + 1];
    }
  }

  /** `Object.entries(object).forEach(...)` with a callback that throws on the
      first absent value and does nothing otherwise. */
  function CheckEntries(es: seq<(string, Value)>, message: Option<string>): (r: Result<()>)
    ensures r.Ok? <==> PropertyFailure(es).None?
    ensures r.Err? ==> r.msg == Wrap(message, Render(PropertyFailure(es).value))
  {
    if es == [] then Ok(())
    else if IsNullish(es[0].1) then
      Err(Wrap(message, Unexpected(AbsentKind(es[0].1)) + " for property: \"" + es[0].0 + "\""))
    else
      PropertyFailureStep(es);
      CheckEntries(es[1..], message)
  }

  function NullthrowsObject(obj: Value, message: Option<string>): (r: Result<Value>)
    ensures r.Ok? <==> ObjectFailure(obj).None?
    ensures r.Ok? ==> r.value == obj
    ensures r.Err? ==> r.msg == Wrap(message, Render(ObjectFailure(obj).value))
  {
    if IsNullish(obj) then
      Err(Wrap(message, Unexpected(AbsentKind(obj))))
    else
      match CheckEntries(Entries(obj.data), message)
      case Err(e) => Err(e)
      case Ok(_) => Ok(obj)
  }

  /** The call succeeds exactly when the object is present and every top-level
      value is present; it then returns the object unchanged. */
  lemma NullthrowsObjectSucceedsIff(obj: Value, message: Option<string>)
    ensures NullthrowsObject(obj, message).Ok?
        <==> !IsNullish(obj) && AllPresent(Entries(obj.data))
    ensures NullthrowsObject(obj, message).Ok? ==> NullthrowsObject(obj, message).value == obj
  {
  }

  /** An absent object fails with the same text as `nullthrows`. */
  lemma NullthrowsObjectAbsent(obj: Value, message: Option<string>)
    requires IsNullish(obj)
    ensures NullthrowsObject(obj, message) == Err(Wrap(message, Unexpected(AbsentKind(obj))))
  {
  }

  /** The reported key is that of the first absent entry in enumeration order. */
  lemma FirstAbsentKeyReported(es: seq<(string, Value)>, i: int, message: Option<string>)
    requires IsFirstAbsent(es, i)
    ensures NullthrowsObject(Present(Obj(es)), message)
         == Err(Wrap(message, Render(AbsentProperty(AbsentKind(es[i].1), es[i].0))))
  {
    FirstAbsentUnique(es, i, FirstAbsentIndex(es).value);
  }

  /** Entries after an absent one do not affect the outcome. */
  lemma {:induction false} LaterEntriesIgnored(es: seq<(string, Value)>, rest: seq<(string, Value)>, message: Option<string>)
    requires !AllPresent(es)
    ensures NullthrowsObject(Present(Obj(es + rest)), message) == NullthrowsObject(Present(Obj(es)), message)
  {
    var i := FirstAbsentIndex(es).value;
    assert IsFirstAbsent(es + rest, i);
    FirstAbsentKeyReported(es + rest, i, message);
    FirstAbsentKeyReported(es, i, message);
  }

  /** Every error text begins with the caller's message. */
  lemma NullthrowsObjectErrorCarriesMessage(obj: Value, m: string)
    ensures NullthrowsObject(obj, Some(m)).Err? ==> m <= NullthrowsObject(obj, Some(m)).msg
  {
    if NullthrowsObject(obj, Some(m)).Err? {
      WrapStartsWithMessage(m, Render(ObjectFailure(obj).value));
    }
  }

  /** Only top-level values are checked: `{foo: {bar: null}}` passes unchanged,
      and so does the empty object. */
  lemma NestedAbsenceNotChecked()
    ensures var nested := Present(Obj([("foo", Present(Obj([("bar", Null)])))]));
      NullthrowsObject(nested, None) == Ok(nested)
    ensures NullthrowsObject(Present(Obj([])), None) == Ok(Present(Obj([])))
  {
  }

  /** An array handed to `nullthrowsObject` is scanned through its index keys: its
      first absent element is reported as the property named by its index. */
  lemma ArrayElementReportedAsProperty(elems: seq<Value>, i: nat, message: Option<string>)
    requires i < |elems| && IsNullish(elems[i])
    requires forall j :: 0 <= j < i ==> !IsNullish(elems[j])
    ensures NullthrowsObject(Present(Arr(elems)), message)
         == Err(Wrap(message, Render(AbsentProperty(AbsentKind(elems[i]), Decimal.NatToString(i)))))
  {
    var es := Entries(Arr(elems));
    EntriesIndexed(Arr(elems));
    assert IsFirstAbsent(es, i);
    FirstAbsentUnique(es, i, FirstAbsentIndex(es).value);
  }

  /** `{foo: true, bar: null}` with a custom message. The inputs are fixed by
      `requires` and the expected text is written in pieces: both keep the solver
      from evaluating long string literals eagerly. */
  lemma PropertyErrorWithMessage(es: seq<(string, Value)>, m: string)
    requires es == [("foo", Present(Bool(true))), ("bar", Null)] && m == "Error parsing asdfjkl"
    ensures NullthrowsObject(Present(Obj(es)), Some(m))
         == Err("Error parsing asdfjkl" + " (" + "Found unexpected \"null\"" + " for property: \"bar\"" + ")")
  {
    assert IsFirstAbsent(es, 1);
    FirstAbsentKeyReported(es, 1, Some(m));
    NullBarText();
    WrapTwoParts(m, "Found unexpected \"null\"", " for property: \"bar\"");
  }

  lemma NullBarText()
    ensures Render(AbsentProperty("null", "bar")) == "Found unexpected \"null\"" + " for property: \"bar\""
  {
    UnexpectedTexts();
    assert " for property: \"" + "bar" + "\"" == " for property: \"bar\"";
  }
}
