/** The error texts shared by all four helpers: what was found, where, and the
    optional caller message that wraps it. */
module ErrorText {
  import opened Values
  import Decimal

  /** What a helper found, before it is rendered: an absent value, an absent
      property, an absent array element, or a present value that is no array. */
  datatype Failure =
    | Absent(kind: string)
    | AbsentProperty(kind: string, key: string)
    | AbsentIndex(kind: string, index: nat)
    | NonArray

  /** `Found unexpected "<what>"`, the stem of every error text. */
  function Unexpected(what: string): string {
    "Found unexpected \"" + what + "\""
  }

  /** The body of the error a failure throws, before the caller message. */
  function Render(f: Failure): string {
    match f
    case Absent(kind) => Unexpected(kind)
    case AbsentProperty(kind, key) => Unexpected(kind) + " for property: \"" + key + "\""
    case AbsentIndex(kind, i) => Unexpected(kind) + " for array index: \"" + Decimal.NatToString(i) + "\""
    case NonArray => Unexpected("non-array")
  }

  /** The truthiness test `message ? … : …`: a missing or empty message counts as none. */
  predicate HasMessage(message: Option<string>) {
    message.Some? && message.value != ""
  }

  /** `message ? \`${message} (${body})\` : body`. */
  function Wrap(message: Option<string>, body: string): (r: string)
    ensures !HasMessage(message) ==> r == body
    ensures HasMessage(message) ==> |r| == |message.value| + |body| + 3
  {
    if HasMessage(message) then message.value + " (" + body + ")" else body
  }

  /** With a message, the text is the message, then the body in parentheses,
      each at a fixed place. */
  lemma WrapLayout(message: Option<string>, body: string)
    requires HasMessage(message)
    ensures var r, m := Wrap(message, body), message.value;
      r[..|m|] == m && r[|m|..|m| + 2] == " (" && r[|m| + 2..|r| - 1] == body && r[|r| - 1] == ')'
  {
    var r, m := Wrap(message, body), message.value;
    assert r == m + " (" + body + ")";
    assert r[..|m|] == m;
    assert r[|m| + 2..|r| - 1] == body;
  }

  /** The three stems the helpers print. */
  lemma UnexpectedTexts()
    ensures Unexpected("null") == "Found unexpected \"null\""
    ensures Unexpected("undefined") == "Found unexpected \"undefined\""
    ensures Unexpected("non-array") == "Found unexpected \"non-array\""
  {
  }

  /** Wrapping a body made of two parts, as a flat concatenation. */
  lemma WrapTwoParts(m: string, a: string, b: string)
    requires m != ""
    ensures Wrap(Some(m), a + b) == m + " (" + a + b + ")"
  {
    assert m + " (" + (a + b) + ")" == m + " (" + a + b + ")";
  }

  /** An empty message wraps exactly like no message. */
  lemma EmptyMessageIsNone(body: string)
    ensures Wrap(Some(""), body) == Wrap(None, body)
  {
  }

  /** Under a given message, the wrapped text still determines the body. */
  lemma WrapInjective(message: Option<string>, a: string, b: string)
    requires Wrap(message, a) == Wrap(message, b)
    ensures a == b
  {
    if HasMessage(message) {
      WrapLayout(message, a);
      WrapLayout(message, b);
      var r, m := Wrap(message, a), message.value;
      assert a == r[|m| + 2..|r| - 1] == b;
    }
  }

  /** Every wrapped text begins with the caller's message, when there is one. */
  lemma WrapStartsWithMessage(m: string, body: string)
    ensures m <= Wrap(Some(m), body)
  {
    if m != "" {
      WrapLayout(Some(m), body);
    }
  }
}
