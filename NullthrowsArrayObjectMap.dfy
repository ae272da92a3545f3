/** `nullthrowsArrayObjectMap(array, mapFn, message?)`: reject an absent input
    and a present input that is not a real array, then map every element in
    index order: an absent element fails with its index, every other element
    goes through `nullthrowsObjectMap`. The first failure is the one thrown. */
module NullthrowsArrayObjectMap {
  import opened Values
  import Decimal
  import opened ErrorText
  import Nullthrows
  import NullthrowsObject
  import NullthrowsObjectMap

  /** `Array.prototype.map` from index `i` on, with a callback that may throw:
      the callback's results in index order, or the first error it throws. */
  function MapFrom(elems: seq<Value>, callback: (Value, nat) -> Result<Value>, i: nat): (r: Result<seq<Value>>)
    requires i <= |elems|
    ensures r.Ok? ==> |r.value| == |elems| - i
    ensures r.Ok? ==> forall k :: i <= k < |elems| ==>
      callback(elems[k], k).Ok? && r.value[k - i] == callback(elems[k], k).value
    decreases |elems| - i
  {
    if i == |elems| then Ok([])
    else match callback(elems[i], i)
      case Err(e) => Err(e)
      case Ok(v) =>
        match MapFrom(elems, callback, i + 1)
        case Err(e) => Err(e)
        case Ok(rest) => Ok([v] + rest)
  }

  /** The mapping succeeds exactly when the callback returns for every element. */
  lemma {:induction false} MapFromOkIff(elems: seq<Value>, callback: (Value, nat) -> Result<Value>, i: nat)
    requires i <= |elems|
    ensures MapFrom(elems, callback, i).Ok? <==> forall k :: i <= k < |elems| ==> callback(elems[k], k).Ok?
    decreases |elems| - i
  {
    if i < |elems| {
      MapFromOkIff(elems, callback, i + 1);
    }
  }

  /** When the callback returns for every index before `k` and throws at `k`,
      the mapping throws exactly that error. */
  lemma {:induction false} MapFromStopsAt(elems: seq<Value>, callback: (Value, nat) -> Result<Value>, i: nat, k: nat)
    requires i <= k < |elems|
    requires forall j :: i <= j < k ==> callback(elems[j], j).Ok?
    requires callback(elems[k], k).Err?
    ensures MapFrom(elems, callback, i) == Err(callback(elems[k], k).msg)
    decreases k - i
  {
    if i < k {
      MapFromStopsAt(elems, callback, i + 1, k);
    }
  }

  /** Elements after a failing prefix are never examined. */
  lemma {:induction false} MapFromFailingPrefix(xs: seq<Value>, ys: seq<Value>, callback: (Value, nat) -> Result<Value>, i: nat)
    requires i <= |xs|
    requires MapFrom(xs, callback, i).Err?
    ensures MapFrom(xs + ys, callback, i) == MapFrom(xs, callback, i)
    decreases |xs| - i
  {
    assert (xs + ys)[i] == xs[i];
    if callback(xs[i], i).Ok? {
      MapFromFailingPrefix(xs, ys, callback, i + 1);
    }
  }

  /** The callback handed to `Array.prototype.map`, for the element `value` at index `idx`. */
  function MapElement(value: Value, idx: nat, mapFn: Value -> Value, message: Option<string>): (r: Result<Value>)
    ensures r.Ok? ==> r.value == mapFn(value)
  {
    if IsNullish(value) then
      Err(Wrap(message, Unexpected(AbsentKind(value)) + " for array index: \"" + Decimal.NatToString(idx) + "\""))
    else
      NullthrowsObjectMap.NullthrowsObjectMap(value, mapFn, message)
  }

  /** An absent element throws its kind and index; a present one yields exactly
      what `nullthrowsObjectMap` yields for it, its error not wrapped a second time. */
  lemma MapElementOutcome(value: Value, idx: nat, mapFn: Value -> Value, message: Option<string>)
    ensures IsNullish(value) ==>
      MapElement(value, idx, mapFn, message) == Err(Wrap(message, Render(AbsentIndex(AbsentKind(value), idx))))
    ensures !IsNullish(value) ==>
      MapElement(value, idx, mapFn, message) == NullthrowsObjectMap.NullthrowsObjectMap(value, mapFn, message)
  {
  }

  /** MapElement for a fixed `mapFn` and message, as the callback of `Array.prototype.map`. */
  function ElementCallback(mapFn: Value -> Value, message: Option<string>): (Value, nat) -> Result<Value> {
    (value: Value, idx: nat) => MapElement(value, idx, mapFn, message)
  }

  function NullthrowsArrayObjectMap(arr: Value, mapFn: Value -> Value, message: Option<string>): (r: Result<seq<Value>>)
    ensures IsNullish(arr) ==> r == Err(Wrap(message, Render(Absent(AbsentKind(arr)))))
    ensures arr.Present? && !arr.data.Arr? ==> r == Err(Wrap(message, Render(NonArray)))
    ensures r.Ok? ==> arr.Present? && arr.data.Arr?
    ensures r.Ok? ==> |r.value| == |arr.data.elems|
    ensures r.Ok? ==> forall k :: 0 <= k < |r.value| ==> r.value[k] == mapFn(arr.data.elems[k])
  {
    match Nullthrows.Nullthrows(arr, message)
    case Err(e) => Err(e)
    case Ok(present) =>
      if !present.data.Arr? then
        Err(Wrap(message, Unexpected("non-array")))
      else
        MapFrom(present.data.elems, ElementCallback(mapFn, message), 0)
  }

  /** Reference for the first failure among the elements from index `i` on,
      independent of the message: an absent element's kind and index, or the
      failure of the record `mapFn` makes of a present element. */
  function ElementsFailure(elems: seq<Value>, mapFn: Value -> Value, i: nat): Option<Failure>
    requires i <= |elems|
    decreases |elems| - i
  {
    if i == |elems| then None
    else if IsNullish(elems[i]) then Some(AbsentIndex(AbsentKind(elems[i]), i))
    else match NullthrowsObject.ObjectFailure(mapFn(elems[i]))
      case Some(f) => Some(f)
      case None => ElementsFailure(elems, mapFn, i + 1)
  }

  /** Reference for the failure `nullthrowsArrayObjectMap` reports, if any. */
  function ArrayFailure(arr: Value, mapFn: Value -> Value): Option<Failure> {
    if IsNullish(arr) then Some(Absent(AbsentKind(arr)))
    else if !arr.data.Arr? then Some(NonArray)
    else ElementsFailure(arr.data.elems, mapFn, 0)
  }

  lemma {:induction false} MapFromMatchesFailure(elems: seq<Value>, mapFn: Value -> Value, message: Option<string>, i: nat)
    requires i <= |elems|
    ensures MapFrom(elems, ElementCallback(mapFn, message), i).Ok? <==> ElementsFailure(elems, mapFn, i).None?
    ensures MapFrom(elems, ElementCallback(mapFn, message), i).Err? ==>
      MapFrom(elems, ElementCallback(mapFn, message), i).msg == Wrap(message, Render(ElementsFailure(elems, mapFn, i).value))
    decreases |elems| - i
  {
    if i < |elems| {
      MapElementOutcome(elems[i], i, mapFn, message);
      if !IsNullish(elems[i]) {
        NullthrowsObjectMap.ObjectMapMatchesFailure(elems[i], mapFn, message);
      }
      MapFromMatchesFailure(elems, mapFn, message, i + 1);
    }
  }

  /** The outcome is decided by the message-free reference failure, and its text is
      wrapped by the message exactly once, however deep the failure was found. */
  lemma ArrayMatchesFailure(arr: Value, mapFn: Value -> Value, message: Option<string>)
    ensures NullthrowsArrayObjectMap(arr, mapFn, message).Ok? <==> ArrayFailure(arr, mapFn).None?
    ensures NullthrowsArrayObjectMap(arr, mapFn, message).Err? ==>
      NullthrowsArrayObjectMap(arr, mapFn, message).msg == Wrap(message, Render(ArrayFailure(arr, mapFn).value))
  {
    if arr.Present? && arr.data.Arr? {
      MapFromMatchesFailure(arr.data.elems, mapFn, message, 0);
    }
  }

  /** The call succeeds exactly when the input is an array whose every element is
      present and is mapped to a record with every top-level value present. */
  lemma ArraySucceedsIff(arr: Value, mapFn: Value -> Value, message: Option<string>)
    ensures NullthrowsArrayObjectMap(arr, mapFn, message).Ok? <==>
      arr.Present? && arr.data.Arr? &&
      forall k :: 0 <= k < |arr.data.elems| ==>
        !IsNullish(arr.data.elems[k]) && !IsNullish(mapFn(arr.data.elems[k]))
        && AllPresent(Entries(mapFn(arr.data.elems[k]).data))
  {
    if arr.Present? && arr.data.Arr? {
      var elems, callback := arr.data.elems, ElementCallback(mapFn, message);
      MapFromOkIff(elems, callback, 0);
      forall k | 0 <= k < |elems|
        ensures callback(elems[k], k).Ok? <==>
          !IsNullish(elems[k]) && !IsNullish(mapFn(elems[k])) && AllPresent(Entries(mapFn(elems[k]).data))
      {
        if !IsNullish(elems[k]) {
          NullthrowsObject.NullthrowsObjectSucceedsIff(mapFn(elems[k]), message);
        }
      }
    }
  }

  /** When every element before `k` is mapped and element `k` fails, element `k`'s
      error is the one thrown, unchanged: an absent element reports its index, a
      present one the error of `nullthrowsObjectMap` without a second wrap. */
  lemma FirstFailingElementReported(elems: seq<Value>, mapFn: Value -> Value, message: Option<string>, k: nat)
    requires k < |elems|
    requires forall j :: 0 <= j < k ==> MapElement(elems[j], j, mapFn, message).Ok?
    requires MapElement(elems[k], k, mapFn, message).Err?
    ensures IsNullish(elems[k]) ==>
      NullthrowsArrayObjectMap(Present(Arr(elems)), mapFn, message)
        == Err(Wrap(message, Render(AbsentIndex(AbsentKind(elems[k]), k))))
    ensures !IsNullish(elems[k]) ==>
      NullthrowsArrayObjectMap(Present(Arr(elems)), mapFn, message)
        == Err(NullthrowsObjectMap.NullthrowsObjectMap(elems[k], mapFn, message).msg)
  {
    MapFromStopsAt(elems, ElementCallback(mapFn, message), 0, k);
    MapElementOutcome(elems[k], k, mapFn, message);
  }

  /** Elements after a failing prefix are never examined: appending to an array
      whose prefix already fails does not change the error. */
  lemma LaterElementsIgnored(xs: seq<Value>, ys: seq<Value>, mapFn: Value -> Value, message: Option<string>)
    requires NullthrowsArrayObjectMap(Present(Arr(xs)), mapFn, message).Err?
    ensures NullthrowsArrayObjectMap(Present(Arr(xs + ys)), mapFn, message)
         == NullthrowsArrayObjectMap(Present(Arr(xs)), mapFn, message)
  {
    MapFromFailingPrefix(xs, ys, ElementCallback(mapFn, message), 0);
  }

  /** Every error text begins with the caller's message. */
  lemma ArrayErrorCarriesMessage(arr: Value, mapFn: Value -> Value, m: string)
    ensures NullthrowsArrayObjectMap(arr, mapFn, Some(m)).Err? ==> m <= NullthrowsArrayObjectMap(arr, mapFn, Some(m)).msg
  {
    if NullthrowsArrayObjectMap(arr, mapFn, Some(m)).Err? {
      ArrayMatchesFailure(arr, mapFn, Some(m));
      WrapStartsWithMessage(m, Render(ArrayFailure(arr, mapFn).value));
    }
  }

  /** An empty array succeeds with an empty array. */
  lemma EmptyArraySucceeds(mapFn: Value -> Value, message: Option<string>)
    ensures NullthrowsArrayObjectMap(Present(Arr([])), mapFn, message) == Ok([])
  {
  }

  /** A present value that is not a real array, such as a string, is refused. */
  lemma NonArrayRefused()
    ensures NullthrowsArrayObjectMap(Present(Str("abc")), x => x, None) == Err("Found unexpected \"non-array\"")
    ensures NullthrowsArrayObjectMap(Present(Obj([("length", Present(Num(0)))])), x => x, None)
         == Err("Found unexpected \"non-array\"")
  {
    UnexpectedTexts();
  }

  /** The caller's transform `(o) => ({foo: o.foo, bar: o.bar})`. */
  function PickFooBar(v: Value): Value {
    var es := if v.Present? && v.data.Obj? then v.data.entries else [];
    Present(Obj([("foo", Get(es, "foo")), ("bar", Get(es, "bar"))]))
  }

  /** `[{foo: true, bar: 123}, null]` with a custom message: element 0 is mapped,
      element 1 is reported by its index. As in the other concrete scenarios here,
      the inputs are fixed by `requires` and the expected text is written in pieces
      to keep the solver from evaluating long string literals eagerly. */
  lemma IndexErrorWithMessage(first: Value, m: string)
    requires first == Present(Obj([("foo", Present(Bool(true))), ("bar", Present(Num(123)))]))
    requires m == "Error parsing asdfjkl"
    ensures NullthrowsArrayObjectMap(Present(Arr([first, Null])), PickFooBar, Some(m))
         == Err("Error parsing asdfjkl" + " (" + "Found unexpected \"null\"" + " for array index: \"1\"" + ")")
  {
    FooBarPasses(first, Some(m));
    FirstFailingElementReported([first, Null], PickFooBar, Some(m), 1);
    NullOneText();
    WrapTwoParts(m, "Found unexpected \"null\"", " for array index: \"1\"");
  }

  /** Element 0 of that scenario is mapped to itself. */
  lemma FooBarPasses(first: Value, message: Option<string>)
    requires first == Present(Obj([("foo", Present(Bool(true))), ("bar", Present(Num(123)))]))
    ensures MapElement(first, 0, PickFooBar, message) == Ok(first)
  {
    assert Get(first.data.entries, "bar") == Present(Num(123));
  }

  lemma NullOneText()
    ensures Render(AbsentIndex("null", 1)) == "Found unexpected \"null\"" + " for array index: \"1\""
  {
    UnexpectedTexts();
    assert Decimal.NatToString(1) == "1";
    assert " for array index: \"" + "1" + "\"" == " for array index: \"1\"";
  }

  /** `[{foo: true, bar: 123, baz: null}]` picked and renamed to
      `[{foozy: true, barzy: 123}]`: the absent `baz` is dropped and never checked. The element is fixed by `requires`
      for the same reason. */
  lemma PickRenamedArray(elem: Value)
    requires elem == Present(Obj([("foo", Present(Bool(true))), ("bar", Present(Num(123))), ("baz", Null)]))
    ensures NullthrowsArrayObjectMap(Present(Arr([elem])), NullthrowsObjectMap.PickRenamed, None)
         == Ok([Present(Obj([("foozy", Present(Bool(true))), ("barzy", Present(Num(123)))]))])
  {
    var mapped := Present(Obj([("foozy", Present(Bool(true))), ("barzy", Present(Num(123)))]));
    NullthrowsObjectMap.PickRenamedDropsAbsent();
    assert MapElement(elem, 0, NullthrowsObjectMap.PickRenamed, None) == Ok(mapped);
    var r := NullthrowsArrayObjectMap(Present(Arr([elem])), NullthrowsObjectMap.PickRenamed, None);
    MapFromOkIff([elem], ElementCallback(NullthrowsObjectMap.PickRenamed, None), 0);
    assert r.Ok?;
    assert |r.value| == 1 && r.value[0] == mapped;
    assert r.value == [mapped];
  }
}
