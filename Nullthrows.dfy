/** `nullthrows(value, message?)`: reject `null` and `undefined`, pass every
    other value through unchanged. */
module Nullthrows {
  import opened Values
  import opened ErrorText

  function Nullthrows(value: Value, message: Option<string>): (r: Result<Value>)
    ensures r.Ok? <==> !IsNullish(value)
    ensures r.Ok? ==> r.value == value
    ensures r.Err? ==> r.msg == Wrap(message, Render(Absent(AbsentKind(value))))
  {
    if IsNullish(value) then
      Err(Wrap(message, Unexpected(AbsentKind(value))))
    else
      Ok(value)
  }

  /** The two absence markers fail with their own bare texts when no message is given. */
  lemma NullthrowsBareTexts()
    ensures Nullthrows(Null, None) == Err("Found unexpected \"null\"")
    ensures Nullthrows(Undefined, None) == Err("Found unexpected \"undefined\"")
  {
    UnexpectedTexts();
  }

  /** Falsy but present values are not absent: `false`, `0`, `""`, `{}` and `[]` pass unchanged. */
  lemma NullthrowsFalsyValuesPass(message: Option<string>)
    ensures Nullthrows(Present(Bool(false)), message) == Ok(Present(Bool(false)))
    ensures Nullthrows(Present(Num(0)), message) == Ok(Present(Num(0)))
    ensures Nullthrows(Present(Str("")), message) == Ok(Present(Str("")))
    ensures Nullthrows(Present(Obj([])), message) == Ok(Present(Obj([])))
    ensures Nullthrows(Present(Arr([])), message) == Ok(Present(Arr([])))
  {
  }

  /** Whenever it throws, the error text begins with the supplied message. */
  lemma NullthrowsErrorCarriesMessage(value: Value, m: string)
    requires IsNullish(value)
    ensures Nullthrows(value, Some(m)).Err?
    ensures m <= Nullthrows(value, Some(m)).msg
  {
    WrapStartsWithMessage(m, Render(Absent(AbsentKind(value))));
  }

  /** The custom message wraps the bare text once, in parentheses. */
  lemma NullthrowsCustomMessage()
    ensures Nullthrows(Null, Some("Error parsing asdfjkl"))
         == Err("Error parsing asdfjkl" + " (" + "Found unexpected \"null\"" + ")")
  {
    UnexpectedTexts();
  }
}
