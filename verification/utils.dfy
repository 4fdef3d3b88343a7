/** JSON-RPC 2.0 message classification (`mcphawk/utils.py`).

    A message's kind depends only on which of the keys `error`, `result`,
    `method` and `id` are present, once `jsonrpc` is exactly `"2.0"`
    (sections 4, 4.1 and 5 of the JSON-RPC 2.0 specification). */
module Utils {
  import opened Wrappers
  import opened Json

  /** The argument of `parse_message`: a string still to be parsed, or a value
      that was parsed already (any non-`str` argument). */
  datatype RawMessage = Text(text: string) | Parsed(value: Json)

  datatype MessageType = Request | Response | Notification | Error | Unknown

  /** The string `get_message_type` returns for each kind. */
  function TypeName(t: MessageType): string {
    match t
    case Request => "request"
    case Response => "response"
    case Notification => "notification"
    case Error => "error"
    case Unknown => "unknown"
  }

  /** `parse_message`: a non-string argument is returned unchanged; a string is
      parsed, and a string the parser rejects (invalid or empty text) gives `None`. */
  function ParseMessage(m: RawMessage, parse: Parser): (r: Json)
    ensures m.Parsed? ==> r == m.value
    ensures m.Text? && parse(m.text).None? ==> r == JNull
    ensures m.Text? && parse(m.text).Some? ==> r == parse(m.text).value
  {
    match m
    case Parsed(v) => v
    case Text(s) => parse(s).GetOr(JNull)
  }

  /** The object declares JSON-RPC 2.0: `parsed.get("jsonrpc") == "2.0"`. */
  predicate IsV2(fields: map<string, Json>) {
    Get(fields, "jsonrpc") == JStr("2.0")
  }

  /** The ordered rules of `get_message_type` applied to a parsed object. */
  function ClassifyFields(fields: map<string, Json>): (t: MessageType)
    ensures t == Error <==> IsV2(fields) && "error" in fields && "id" in fields
    ensures t == Response <==>
      IsV2(fields) && "result" in fields && "id" in fields && "error" !in fields
    ensures t == Request <==>
      IsV2(fields) && "method" in fields && "id" in fields && "error" !in fields && "result" !in fields
    ensures t == Notification <==> IsV2(fields) && "method" in fields && "id" !in fields
    ensures t == Unknown <==>
      !IsV2(fields) || ("method" !in fields && ("id" !in fields || ("error" !in fields && "result" !in fields)))
  {
    if !IsV2(fields) then Unknown
    else if "error" in fields && "id" in fields then Error
    else if "result" in fields && "id" in fields then Response
    else if "method" in fields && "id" in fields then Request
    else if "method" in fields && "id" !in fields then Notification
    else Unknown
  }

  /** `get_message_type` as written: a falsy parse result (including a parse
      failure) is `unknown`, an object is classified, and any other truthy value
      (a batch array, a string, a non-zero number, `true`) reaches
      `parsed.get(...)` and raises `AttributeError`. */
  function GetMessageTypeAsWritten(m: RawMessage, parse: Parser): (r: Outcome<MessageType>)
    ensures var p := ParseMessage(m, parse);
      && (r.Raises? <==> Truthy(p) && !p.JObj?)
      && (!Truthy(p) ==> r == Returns(Unknown))
      && (p.JObj? ==> r == Returns(ClassifyFields(p.fields)))
  {
    var p := ParseMessage(m, parse);
    if !Truthy(p) then Returns(Unknown)
    else if !p.JObj? then Raises("AttributeError")
    else Returns(ClassifyFields(p.fields))
  }

  /** `get_message_type` with the documented five-way result for every input:
      anything that is not a JSON-RPC object is `unknown`. */
  function GetMessageType(m: RawMessage, parse: Parser): (t: MessageType)
    ensures var p := ParseMessage(m, parse);
      && (!p.JObj? ==> t == Unknown)
      && (p.JObj? ==> t == ClassifyFields(p.fields))
  {
    var p := ParseMessage(m, parse);
    if p.JObj? then ClassifyFields(p.fields) else Unknown
  }

  /** The corrected classifier agrees with the source whenever the source returns. */
  lemma GetMessageTypeAgrees(m: RawMessage, parse: Parser)
    ensures GetMessageTypeAsWritten(m, parse).Returns? ==>
      GetMessageTypeAsWritten(m, parse).value == GetMessageType(m, parse)
  {
  }

  /** A JSON-RPC batch (a non-empty array of requests) makes the source raise,
      while the corrected classifier says `unknown`. */
  lemma BatchMessageRaises(s: string, parse: Parser)
    requires parse(s) == Some(JArr([JObj(map["jsonrpc" := JStr("2.0"), "method" := JStr("ping"), "id" := JNum(1)])]))
    ensures GetMessageTypeAsWritten(Text(s), parse) == Raises("AttributeError")
    ensures GetMessageType(Text(s), parse) == Unknown
  {
  }

  /** The kind depends on key presence (and the `jsonrpc` value) only, never on
      the other values; a `null` id counts as present. */
  lemma ClassifyByKeysOnly(f: map<string, Json>, g: map<string, Json>)
    requires IsV2(f) == IsV2(g)
    requires ("error" in f <==> "error" in g) && ("result" in f <==> "result" in g)
    requires ("method" in f <==> "method" in g) && ("id" in f <==> "id" in g)
    ensures ClassifyFields(f) == ClassifyFields(g)
  {
  }

  /** `get_method_name`: the `method` value of an object (`None`, i.e. `JNull`,
      when absent), `None` for a falsy parse result such as unparseable text,
      and `AttributeError` for any other truthy non-object. */
  function GetMethodName(m: RawMessage, parse: Parser): (r: Outcome<Json>)
    ensures var p := ParseMessage(m, parse);
      && (!Truthy(p) ==> r == Returns(JNull))
      && (p.JObj? && Truthy(p) && "method" in p.fields ==> r == Returns(p.fields["method"]))
      && (p.JObj? && "method" !in p.fields ==> r == Returns(JNull))
      && (r.Raises? <==> Truthy(p) && !p.JObj?)
  {
    var p := ParseMessage(m, parse);
    if !Truthy(p) then Returns(JNull)
    else if p.JObj? then Returns(Get(p.fields, "method"))
    else Raises("AttributeError")
  }

  /** Parsing is settled after one pass: handing `parse_message` its own
      result returns that result unchanged. */
  lemma ParseMessageSettles(m: RawMessage, parse: Parser)
    ensures ParseMessage(Parsed(ParseMessage(m, parse)), parse) == ParseMessage(m, parse)
  {
  }

  /** `get_method_name` and `get_message_type` fail on the same inputs: both
      raise exactly when the parse result is truthy and not an object. */
  lemma MethodNameRaisesWithType(m: RawMessage, parse: Parser)
    ensures GetMethodName(m, parse).Raises? <==> GetMessageTypeAsWritten(m, parse).Raises?
  {
  }

  /** Every message classified as a request or a notification has its method
      name extracted. */
  lemma MethodNameOfCall(m: RawMessage, parse: Parser)
    ensures var t := GetMessageType(m, parse);
            var p := ParseMessage(m, parse);
            t == Request || t == Notification ==>
              p.JObj? && "method" in p.fields && GetMethodName(m, parse) == Returns(p.fields["method"])
  {
    var p := ParseMessage(m, parse);
    if p.JObj? && "method" in p.fields {
      assert |p.fields| > 0 by {
        assert "method" in p.fields.Keys;
      }
    }
  }
}
