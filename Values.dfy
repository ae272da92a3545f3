/** JavaScript values as the nullthrows helpers see them.

    A value is one of the two absence markers (`null`, `undefined`) or a
    present value. Present values are booleans, numbers, strings, plain
    objects (their own enumerable entries, in enumeration order) and real
    arrays. */
module Values {
  import Decimal

  datatype Option<+T> = None | Some(value: T)

  /** The outcome of a call: its return value, or the text of the Error it throws. */
  datatype Result<+T> = Ok(value: T) | Err(msg: string)

  datatype Value = Null | Undefined | Present(data: Data)

  datatype Data =
    | Bool(b: bool)
    | Num(n: int)
    | Str(s: string)
    | Obj(entries: seq<(string, Value)>)
    | Arr(elems: seq<Value>)

  /** JavaScript's loose test `value == null`: true for `null` and `undefined` only. */
  predicate IsNullish(v: Value) {
    v.Null? || v.Undefined?
  }

  /** The name the helpers print for an absent value: `typeof value === 'undefined'`
      picks "undefined", everything else that is `== null` is "null". */
  function AbsentKind(v: Value): (k: string)
    requires IsNullish(v)
    ensures k == "null" || k == "undefined"
    ensures (k == "undefined") <==> v.Undefined?
  {
    if v.Undefined? then "undefined" else "null"
  }

  /** `Object.entries(d)`: the own enumerable string-keyed entries of a present value.
      An array yields its indices as keys, a string its characters, a boolean or a
      number nothing. */
  function Entries(d: Data): (es: seq<(string, Value)>)
    ensures d.Obj? ==> es == d.entries
    ensures d.Arr? ==> |es| == |d.elems|
    ensures d.Str? ==> |es| == |d.s|
    ensures d.Bool? || d.Num? ==> es == []
  {
    match d
    case Obj(entries) => entries
    case Arr(elems) => seq(|elems|, i requires 0 <= i < |elems| => (Decimal.NatToString(i), elems[i]))
    case Str(s) => seq(|s|, i requires 0 <= i < |s| => (Decimal.NatToString(i), Present(Str([s[i]]))))
    case Bool(_) => []
    case Num(_) => []
  }

  /** The entries of an array pair the decimal text of each index with the element
      there; those of a string pair it with a one-character string. Kept apart from
      Entries' own contract so that its users do not carry these quantifiers. */
  lemma EntriesIndexed(d: Data)
    ensures d.Arr? ==> forall k :: 0 <= k < |d.elems| ==>
      Entries(d)[k] == (Decimal.NatToString(k), d.elems[k])
    ensures d.Str? ==> forall k :: 0 <= k < |d.s| ==>
      Entries(d)[k] == (Decimal.NatToString(k), Present(Str([d.s[k]])))
  {
  }

  /** True when no entry holds `null` or `undefined`. */
  predicate AllPresent(es: seq<(string, Value)>) {
    forall i :: 0 <= i < |es| ==> !IsNullish(es[i].1)
  }

  /** Property read `o[key]` on a list of entries: the first entry with that key,
      or `undefined` when there is none (used to write the callers' `mapFn`s). */
  function Get(es: seq<(string, Value)>, key: string): (v: Value)
    ensures (forall i :: 0 <= i < |es| ==> es[i].0 != key) ==> v == Undefined
    ensures |es| > 0 && es[0].0 == key ==> v == es[0].1
  {
    if es == [] then Undefined
    else if es[0].0 == key then es[0].1
    else Get(es[1..], key)
  }
}
