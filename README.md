# TradingView webhook relay: the `POST /webhook` handler

The relay in `server.js` takes the body of a webhook alert and forwards it
to one target with a single outbound `POST`. It then answers its own caller
from the outcome of that call.

Two decisions are made on the way, and this project models both and proves
what they guarantee.

- **Body classification** (server.js:58-73). The raw body is the request
  body when that is a string and its `JSON.stringify` text otherwise. The
  body is trimmed for inspection. If the trimmed text opens with `{`, `[` or
  `"` and `JSON.parse` accepts it, the body goes out as `application/json`,
  as that trimmed text. Otherwise it goes out as `text/plain; charset=utf-8`,
  as the raw body unchanged.
- **Reply mapping** (server.js:77-100). Any response from the target, 4xx
  and 5xx included, yields `200 { ok: true, forwardStatus }`. Only an
  exception yields `500 { ok: false, error }`.

The two library operations the classification depends on are modelled
exactly rather than left abstract.

- `String.prototype.trim`, in `ecma_string.dfy`. It strips the WhiteSpace and
  LineTerminator code points of ECMA-262 (sections 12.2 and 12.3 of the 2023
  edition), among them the Unicode Zs category, TAB, VT, FF, the BOM, CR,
  LF, LS and PS.
- The `JSON.parse` acceptance test, in `json_syntax.dfy`,
  `json_parser.dfy` and `json_completeness.dfy`. It is a recursive-descent
  recognizer for the JSON-text grammar of section 2 of RFC 8259.
  - The recognizer builds a concrete syntax tree that keeps every character
    of the input.
  - Soundness is part of each parser's contract: printing the tree gives
    back the consumed input.
  - Completeness is proved by lemmas: the recognizer reads back every
    well-formed tree.
  - Together these give `IsJsonText(s)` exactly when `s` is the text of a
    well-formed JSON-text tree. The property "forwarded as JSON, with no
    re-serialisation" is stated through that tree.

`relay.dfy` holds the handler itself. It contains:

- `Classify`, the classification as a function;
- `ClassifyBody`, the same classification written like the source, with two
  mutable locals that start as text and the raw body;
- `ReplyFor`, the reply mapping;
- `Handle`, the whole request, with the outbound call passed in as a
  function.

The request body is `StringBody(text)` or `ValueBody(stringified)`. A
`ValueBody` is a non-string value, and its `stringified` text is `None` when
`JSON.stringify` returns `undefined`. In that case `.trim()` throws at
server.js:59, before the `try`, and `Handle` yields `Threw`.

## Model

| member | source | states |
|---|---|---|
| Relay.Classify | server.js:58-73 | The content type is exactly one of the two constants. The body is the raw body or its trim. The type is JSON exactly when the trimmed body opens with `{`, `[` or `"` and parses. A JSON body is the trimmed text; a text body is the raw body, untrimmed. |
| Relay.ClassifyBody | server.js:59-73 | The imperative classification (locals initialised to text and raw body, overwritten only inside the guarded parse) computes exactly `Classify`. |
| Relay.ReplyFor | server.js:93-99 | `ok` holds exactly for a response. A response gives status 200 and `forwardStatus` equal to the target's status, whatever that status is. An exception gives status 500 and `error` equal to its string form. |
| Relay.Handle | server.js:56-100 | A string body is used as it is and any other value through its stringification. The handler throws exactly when that stringification is undefined. Otherwise it makes one outbound call with the classified request and replies from that call's outcome. |
| Relay.ClassifiedAsJsonIff | server.js:65-69 | A body goes out as JSON exactly when its trimmed text is the printed form of one well-formed object, array or string value, with no white space around it. |
| Relay.JsonForwardedVerbatim | server.js:67-69 | The printed text of any well-formed object, array or string goes out as JSON, character for character: no re-serialisation. |
| Relay.BlankBodyIsText | server.js:61-62 | An empty or white-space-only body goes out as text, unchanged. |
| Relay.EmptyStringBodyIsText | server.js:58-62 | An empty string body is forwarded as empty text, not as `{}`. |
| Relay.NonJsonOpeningIsText | server.js:61-65 | A body whose trimmed text does not open with `{`, `[` or `"` goes out as text, untrimmed. |
| Relay.ScalarJsonIsText | server.js:65 | A body whose trimmed text is a bare JSON number or literal goes out as text, although `JSON.parse` would accept it. |
| Relay.UnparsableJsonIsText | server.js:66-72 | A body that opens like JSON but does not parse is not an error: it goes out as text, untrimmed. |
| Relay.BareNameBodyIsText | server.js:66-72 | A body that opens with `{` followed directly by a bare name, such as `{invalid json`, goes out as text, unchanged, whatever white space follows it. |
| Relay.BareNameWithNewlineIsText | server.js:59-72 | `{invalid json` followed by a newline goes out as text, newline included. |
| Relay.BareNameInObject | server.js:67 | `JSON.parse` rejects a text that opens with `{` followed directly by a character that is neither JSON white space (space, tab, line feed, carriage return), `}` nor a quote. |
| Relay.NbspPaddedIsJson | server.js:59-69 | A no-break space followed by an object, array or string is rejected by `JSON.parse` as it stands, yet it goes out as JSON without the no-break space: trim strips more than JSON white space. |
| Relay.StringifiedValueIsJson | server.js:58 | A non-string body whose stringification is an object, array or string text goes out as JSON. This includes `{}`, so the empty-body guarantee covers string bodies only. |
| Relay.EmptyObjectPrint | server.js:58 | The empty object prints as `{}`. |
| Relay.EmptyObjectBodyIsJson | server.js:58-69 | A non-string body that stringifies to `{}` is forwarded as `application/json` with body `{}`. |
| Relay.ClassifyIdempotent | server.js:59-73 | Classifying the forwarded body again gives the same content type and body. |
| Relay.ReplyStatusMatchesOk | server.js:93-99 | The relay's status is 200 or 500, and it is 200 exactly when `ok` is true. |
| Relay.ResponseTextIgnored | server.js:84-96 | The text read from the target's response has no effect on the reply. |
| Relay.TrimEnds | server.js:59 | The trimmed body is empty or has no trimmable code point at either end. |
| EcmaString.TrimStart | server.js:59 | The result is the longest suffix not starting with a trimmable code point, and everything removed is trimmable. |
| EcmaString.TrimEnd | server.js:59 | The result is the longest prefix not ending with a trimmable code point, and everything removed is trimmable. |
| EcmaString.Trim | server.js:59 | The result is a slice of the input. Only trimmable code points are cut away from either side, and the slice is empty or has no trimmable code point at either end. |
| EcmaString.TrimUnique | server.js:59 | Any slice with those properties is the one `Trim` returns. |
| EcmaString.TrimIdempotent | server.js:59 | Trimming twice is trimming once. |
| EcmaString.TrimEmptyIff | server.js:59 | Trim yields the empty string exactly for strings made only of trimmable code points. |
| EcmaString.TrimKeepsOpening | server.js:59 | When neither of the first two code points is trimmable, the trimmed string starts with those same two. |
| EcmaString.TrimKeepsInner | server.js:59 | A string with no trimmable code point at either end is left unchanged. |
| JsonParser.ParseValue | server.js:67 | Soundness: a parsed value is well-formed, its printed form followed by the remaining input is the input, and it consumes at least one character. |
| JsonParser.ParseText | server.js:67 | Soundness: an accepted text is well-formed and prints back to exactly the input. |
| JsonCompleteness.ValueComplete | server.js:67 | Completeness: the parser reads back every well-formed value followed by anything that does not start with a digit, `.`, `e` or `E`. |
| JsonCompleteness.TextComplete | server.js:67 | Completeness: the parser accepts the printed form of every well-formed JSON text and returns that same tree. |
| JsonCompleteness.IsJsonTextIff | server.js:67 | A string is accepted exactly when it is the printed form of a well-formed JSON text. |
| JsonSyntax.PrintStart | server.js:65 | Every printed well-formed value is non-empty and opens with a value-start character. It opens with `{`, `[` or `"` exactly when it is an object, an array or a string. |

## Left out

- Express wiring, the body parser registration, `/health` and `listen`
  (server.js:6-16, 52-54, 103-107) are framework I/O with no decision in
  them. What the body parser produces is the input `Body`.
- Logging, the timestamps and the log samples (server.js:18-50, 75,
  85-91, 98) are console output and clock reads. The request counter
  (server.js:29-31, 57) only correlates log lines.
- The outbound `fetch` and `resp.text()` (server.js:78-84) are network I/O.
  `Handle` takes the call as a function from the request to its `Outcome`.
  A failure of `resp.text()` lands in the same `catch`, so it is a
  `TransportError` too.
- `String(err)` is not modelled; the model takes it as an opaque string.
- Relay.ReplyFor: does not promise that the error message is non-empty,
  because `String(err)` is opaque here.
- Relay.Handle: what happens after the handler throws is not modelled. It
  throws on a body that stringifies to `undefined`, before the `try`, so its
  own `catch` never sees the error. Express's reaction to the rejected
  promise is not part of this model. This is narrower than "every
  unexpected exception becomes a 500 reply": the code catches only
  exceptions raised inside the `try` of server.js:77-100. `Body` cannot
  represent a value on which the stringification at server.js:58 itself
  throws, such as a BigInt, a circular value or a throwing `toJSON`. So
  "throws exactly when the stringification is undefined" holds only for
  values that stringify without throwing, as all values the body parser
  produces do.
- EcmaString.Trim: strings are sequences of Unicode scalar values. A lone
  UTF-16 surrogate cannot occur, which changes nothing for trim, since no
  trimmable code point is a surrogate. The Zs category is fixed as of
  Unicode 15.
- JsonParser.ParseText: `JSON.parse` also builds a value. Only its
  acceptance is modelled, since the handler discards the value.
  Implementation limits such as nesting depth or number size are not
  modelled.
