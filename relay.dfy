/** The POST /webhook handler of the relay (server.js): it classifies the
    request body as JSON or plain text, forwards it in one outbound POST and
    turns the outcome of that call into the relay's own reply. */
module Relay {
  import opened Options
  import opened EcmaString
  import opened JsonSyntax
  import opened JsonParser
  import opened JsonCompleteness

  const JsonContentType := "application/json"
  const TextContentType := "text/plain; charset=utf-8"

  /** req.body as the body parser leaves it: the body text, or some other
      value, given by what JSON.stringify makes of it (None when that is
      undefined, as it is for an undefined body). */
  datatype Body = StringBody(text: string) | ValueBody(stringified: Option<string>)

  /** The outbound request: its Content-Type header and its body. */
  datatype Forward = Forward(contentType: string, body: string)

  /** What the single outbound call produced: a response (any status, with
      the text read from it), or an exception, given as String(err). */
  datatype Outcome = Response(status: int, text: string) | TransportError(message: string)

  /** The JSON object the relay answers with. */
  datatype ReplyBody = Relayed(forwardStatus: int) | Failed(error: string) {
    /** Its `ok` field. */
    predicate Ok() {
      Relayed?
    }
  }

  datatype Reply = Reply(httpStatus: int, body: ReplyBody)

  /** The handler either threw before the outbound call, or answered after
      sending `sent`. */
  datatype Handled = Threw | Answered(sent: Forward, reply: Reply)

  /** The raw body: a string body as it is, anything else through its
      stringification; None when that is undefined, which trimming rejects. */
  function RawBody(b: Body): Option<string> {
    match b
    case StringBody(text) => Some(text)
    case ValueBody(stringified) => stringified
  }

  /** The trimmed body opens with "{", "[" or a quotation mark. */
  predicate StartsLikeJson(t: string) {
    t != [] && (t[0] == '{' || t[0] == '[' || t[0] == '"')
  }

  /** The body classification: JSON, sent as its trimmed text, when the
      trimmed body opens like JSON and JSON.parse accepts it; otherwise
      plain text, sent exactly as received. */
  function Classify(rawBody: string): (f: Forward)
    ensures f.contentType == JsonContentType || f.contentType == TextContentType
    ensures f.body == rawBody || f.body == Trim(rawBody)
    ensures f.contentType == JsonContentType <==> StartsLikeJson(Trim(rawBody)) && IsJsonText(Trim(rawBody))
    ensures f.contentType == JsonContentType ==> f.body == Trim(rawBody)
    ensures f.contentType == TextContentType ==> f.body == rawBody
  {
    var trimmed := Trim(rawBody);
    if StartsLikeJson(trimmed) && IsJsonText(trimmed) then Forward(JsonContentType, trimmed)
    else Forward(TextContentType, rawBody)
  }

  /** The classification as the handler performs it: two locals start out
      as plain text and the raw body and are overwritten only when the
      trimmed body opens like JSON and parses. */
  method ClassifyBody(rawBody: string) returns (forwardContentType: string, forwardBody: string)
    ensures Forward(forwardContentType, forwardBody) == Classify(rawBody)
  {
    var trimmed := Trim(rawBody);
    forwardContentType := TextContentType;
    forwardBody := rawBody;
    if StartsLikeJson(trimmed) {
      // the parse either succeeds or throws; only its success matters
      if IsJsonText(trimmed) {
        forwardContentType := JsonContentType;
        forwardBody := trimmed;
      }
    }
  }

  /** The reply for the outcome of the outbound call: any response, 4xx and
      5xx included, is relayed with status 200 and its status as data; only
      an exception gives 500. */
  function ReplyFor(o: Outcome): (r: Reply)
    ensures r.body.Ok() <==> o.Response?
    ensures o.Response? ==> r.httpStatus == 200 && r.body == Relayed(o.status)
    ensures o.TransportError? ==> r.httpStatus == 500 && r.body == Failed(o.message)
  {
    match o
    case Response(status, _) => Reply(200, Relayed(status))
    case TransportError(message) => Reply(500, Failed(message))
  }

  /** The whole handler, given the outbound call as `send`: it makes exactly
      one call, with the classified request, and replies from its outcome. */
  function Handle(b: Body, send: Forward -> Outcome): (h: Handled)
    ensures h.Threw? <==> b == ValueBody(None)
    ensures b.StringBody? ==> h == Answered(Classify(b.text), ReplyFor(send(Classify(b.text))))
    ensures b.ValueBody? && b.stringified.Some? ==>
              h == Answered(Classify(b.stringified.value), ReplyFor(send(Classify(b.stringified.value))))
  {
    match RawBody(b)
    case None => Threw
    case Some(rawBody) =>
      var sent := Classify(rawBody);
      Answered(sent, ReplyFor(send(sent)))
  }

  // -----------------------------------------------------------------------
  // Properties of the classification

  /** The body sent as JSON is the text of exactly one JSON object, array or
      string and nothing else: no white space around it, and the very
      characters of the request, not a re-serialisation. Conversely a body
      whose trimmed form is such a text is always sent as JSON. */
  lemma ClassifiedAsJsonIff(rawBody: string)
    ensures Classify(rawBody).contentType == JsonContentType <==>
            exists v :: Wf(v) && Print(v) == Trim(rawBody) && (v.Obj? || v.Arr? || v.Str?)
  {
    if Classify(rawBody).contentType == JsonContentType {
      JsonBodyIsBareValue(rawBody);
    }
    if exists v :: Wf(v) && Print(v) == Trim(rawBody) && (v.Obj? || v.Arr? || v.Str?) {
      var v :| Wf(v) && Print(v) == Trim(rawBody) && (v.Obj? || v.Arr? || v.Str?);
      BareValueIsJson(rawBody, v);
    }
  }

  lemma JsonBodyIsBareValue(rawBody: string)
    requires Classify(rawBody).contentType == JsonContentType
    ensures exists v :: Wf(v) && Print(v) == Trim(rawBody) && (v.Obj? || v.Arr? || v.Str?)
  {
    TrimEnds(rawBody);
    var v := UnpaddedValue(Trim(rawBody));
  }

  /** The value of a JSON text whose ends are not trimmable, and which
      opens like JSON, is all of the text and an object, array or string. */
  lemma UnpaddedValue(t: string) returns (v: Value)
    requires ParseText(t).Some? && StartsLikeJson(t)
    requires !IsTrimmable(t[0]) && !IsTrimmable(t[|t| - 1])
    ensures Wf(v) && Print(v) == t && (v.Obj? || v.Arr? || v.Str?)
  {
    var text := ParseText(t).value;
    v := text.value;
    Unpadded(text.before, Print(v), text.after, t);
    PrintStart(v);
  }

  /** A JSON text without trimmable characters at its ends has no white
      space around its value. */
  lemma Unpadded(before: string, middle: string, after: string, t: string)
    requires before + middle + after == t && AllWs(before) && AllWs(after)
    requires t == [] || (!IsTrimmable(t[0]) && !IsTrimmable(t[|t| - 1]))
    ensures before == [] && after == [] && middle == t
  {
  }

  lemma BareValueIsJson(rawBody: string, v: Value)
    requires Wf(v) && Print(v) == Trim(rawBody) && (v.Obj? || v.Arr? || v.Str?)
    ensures Classify(rawBody).contentType == JsonContentType
  {
    BareValueText(v);
  }

  /** The text of an object, array or string opens like JSON and parses. */
  lemma BareValueText(v: Value)
    requires Wf(v) && (v.Obj? || v.Arr? || v.Str?)
    ensures StartsLikeJson(Print(v)) && IsJsonText(Print(v))
  {
    var text := Text([], v, []);
    assert PrintText(text) == Print(v);
    TextComplete(text);
    PrintStart(v);
  }

  /** Trim leaves no white space, line terminator or BOM at either end. */
  lemma TrimEnds(s: string)
    ensures var t := Trim(s); t == [] || (!IsTrimmable(t[0]) && !IsTrimmable(t[|t| - 1]))
  {
    var t := Trim(s);
    var lo, hi :| IsTrimSlice(s, lo, hi) && t == s[lo..hi];
  }

  /** Blank bodies, the empty one included, go out as plain text, unchanged. */
  lemma BlankBodyIsText(rawBody: string)
    requires AllTrimmable(rawBody)
    ensures Classify(rawBody) == Forward(TextContentType, rawBody)
  {
    TrimEmptyIff(rawBody);
  }

  /** A body whose trimmed form does not open with "{", "[" or '"' goes out
      as plain text, untrimmed. */
  lemma NonJsonOpeningIsText(rawBody: string)
    requires !StartsLikeJson(Trim(rawBody))
    ensures Classify(rawBody) == Forward(TextContentType, rawBody)
  {
  }

  /** A body that opens like JSON but does not parse is not an error: it goes
      out as plain text, untrimmed. */
  lemma UnparsableJsonIsText(rawBody: string)
    requires StartsLikeJson(Trim(rawBody)) && !IsJsonText(Trim(rawBody))
    ensures Classify(rawBody) == Forward(TextContentType, rawBody)
  {
  }

  /** A body that JSON.parse would accept but that is a bare number or
      literal (true, false, null) is still sent as plain text. */
  lemma ScalarJsonIsText(rawBody: string, v: Value)
    requires Wf(v) && (v.Num? || v.Lit?) && Trim(rawBody) == Print(v)
    ensures Classify(rawBody) == Forward(TextContentType, rawBody)
  {
    PrintStart(v);
  }

  /** Classifying the forwarded body again gives the same request. */
  lemma ClassifyIdempotent(rawBody: string)
    ensures Classify(Classify(rawBody).body) == Classify(rawBody)
  {
    TrimIdempotent(rawBody);
  }

  // -----------------------------------------------------------------------
  // Properties of the reply

  /** The reply's status line and its `ok` field always agree, and the
      status is one of exactly two values. */
  lemma ReplyStatusMatchesOk(o: Outcome)
    ensures ReplyFor(o).httpStatus == 200 || ReplyFor(o).httpStatus == 500
    ensures ReplyFor(o).httpStatus == 200 <==> ReplyFor(o).body.Ok()
  {
  }

  /** The response text is read but never affects the reply; its status
      alone is passed on. */
  lemma ResponseTextIgnored(status: int, text1: string, text2: string)
    ensures ReplyFor(Response(status, text1)) == ReplyFor(Response(status, text2))
  {
  }

  // -----------------------------------------------------------------------
  // Concrete requests

  /** An object, array or string written without surrounding white space
      is forwarded as JSON, character for character: the relay does not
      re-serialise it. */
  lemma JsonForwardedVerbatim(v: Value)
    requires Wf(v) && (v.Obj? || v.Arr? || v.Str?)
    ensures Classify(Print(v)) == Forward(JsonContentType, Print(v))
  {
    var body := Print(v);
    PrintStart(v);
    assert body[|body| - 1] in "}]\"";
    TrimKeepsInner(body);
    BareValueIsJson(body, v);
  }

  /** A body that opens with "{" followed directly by a bare name, such as
      "{invalid json" with or without trailing white space, is forwarded as
      text, unchanged. */
  lemma BareNameBodyIsText(body: string)
    requires |body| > 1 && body[0] == '{' && !IsTrimmable(body[1]) && body[1] != '}' && body[1] != '"'
    ensures Classify(body) == Forward(TextContentType, body)
  {
    TrimKeepsOpening(body);
    BareNameInObject(Trim(body));
    UnparsableJsonIsText(body);
  }

  /** The body "{invalid json" followed by a newline. */
  lemma BareNameWithNewlineIsText(body: string)
    requires body == "{invalid json\n"
    ensures Classify(body) == Forward(TextContentType, body)
  {
    BareNameBodyIsText(body);
  }

  /** A no-break space before an object, array or string: JSON.parse rejects
      the body as it is, since JSON white space is only space, tab, line feed
      and carriage return, but trim strips the no-break space, so the body is
      forwarded as JSON without it. */
  lemma NbspPaddedIsJson(v: Value, raw: string)
    requires Wf(v) && (v.Obj? || v.Arr? || v.Str?) && raw == ['\U{00A0}'] + Print(v)
    ensures !IsJsonText(raw)
    ensures Classify(raw) == Forward(JsonContentType, Print(v))
  {
    NbspRejected(raw);
    NbspTrimmed(v, raw);
    JsonForwardedVerbatim(v);
  }

  lemma NbspRejected(raw: string)
    requires raw != [] && raw[0] == '\U{00A0}'
    ensures !IsJsonText(raw)
  {
    assert SkipWs(raw) == ([], raw);
  }

  lemma NbspTrimmed(v: Value, raw: string)
    requires Wf(v) && (v.Obj? || v.Arr? || v.Str?) && raw == ['\U{00A0}'] + Print(v)
    ensures Trim(raw) == Print(v)
  {
    PrintStart(v);
    var p := Print(v);
    assert p[|p| - 1] in "}]\"";
    assert raw[1..] == p;
    assert raw[..1] == ['\U{00A0}'];
    assert raw[|raw|..] == [];
    assert IsTrimSlice(raw, 1, |raw|);
    TrimUnique(raw, 1, |raw|);
  }

  /** A text that opens with "{" followed directly by anything other than
      white space, "}" or a quote is rejected. */
  lemma BareNameInObject(s: string)
    requires |s| > 1 && s[0] == '{' && !IsWs(s[1]) && s[1] != '}' && s[1] != '"'
    ensures !IsJsonText(s)
  {
    ObjectNeedsKey(s[1..]);
    assert ParseValue(s) == None;
    assert SkipWs(s) == ([], s);
  }

  /** After "{" and any white space comes "}" or a quoted key. */
  lemma ObjectNeedsKey(s: string)
    requires s != [] && !IsWs(s[0]) && s[0] != '}' && s[0] != '"'
    ensures ParseObjectBody(s) == None
  {
    KeyNeedsQuote(s);
    assert ParseMember(s) == None;
    assert ParseMembers(s) == None;
    assert SkipWs(s) == ([], s);
  }

  lemma KeyNeedsQuote(s: string)
    requires s != [] && !IsWs(s[0]) && s[0] != '"'
    ensures ParseKey(s) == None
  {
    assert SkipWs(s) == ([], s);
  }

  /** An empty string body is sent as empty plain text, never as "{}". */
  lemma EmptyStringBodyIsText(send: Forward -> Outcome)
    ensures Handle(StringBody(""), send).sent == Forward(TextContentType, "")
  {
    BlankBodyIsText("");
  }

  /** A non-string body that stringifies to an object, array or string
      text, such as the empty object "{}" the body parser leaves for a
      request without a body, is sent as JSON: only string bodies that are
      blank are sure to go out as empty text. */
  lemma StringifiedValueIsJson(v: Value, send: Forward -> Outcome)
    requires Wf(v) && (v.Obj? || v.Arr? || v.Str?)
    ensures Handle(ValueBody(Some(Print(v))), send).sent == Forward(JsonContentType, Print(v))
  {
    JsonForwardedVerbatim(v);
  }

  lemma EmptyObjectPrint()
    ensures Print(Obj(EmptyObject([]))) == "{}"
  {
  }

  /** A non-string body that stringifies to the empty object is forwarded
      as JSON "{}". */
  lemma EmptyObjectBodyIsJson(send: Forward -> Outcome)
    ensures Handle(ValueBody(Some("{}")), send).sent == Forward(JsonContentType, "{}")
  {
    EmptyObjectPrint();
    StringifiedValueIsJson(Obj(EmptyObject([])), send);
  }
}
