/** The JSON-text recognizer that stands for JSON.parse: a recursive-descent
    parser over the RFC 8259 grammar which returns the concrete syntax tree
    of what it read and the input left over. Each parsing function promises
    that the tree it returns is well formed and prints back to exactly the
    characters it consumed (soundness); the lemmas at the end prove that it
    reads back every well-formed tree (completeness). */
module JsonParser {
  import opened Options
  import opened JsonSyntax

  /** The white space at the front of s, and what follows it. */
  function SkipWs(s: string): (r: (string, string))
    ensures AllWs(r.0) && r.0 + r.1 == s
    ensures r.1 == [] || !IsWs(r.1[0])
  {
    if s != [] && IsWs(s[0]) then
      var (w, rest) := SkipWs(s[1..]);
      ([s[0]] + w, rest)
    else
      ([], s)
  }

  /** The longest run of digits at the front of s, and what follows it. */
  function TakeDigits(s: string): (r: (string, string))
    ensures AllDigits(r.0) && r.0 + r.1 == s
    ensures r.1 == [] || !IsDigit(r.1[0])
  {
    if s != [] && IsDigit(s[0]) then
      var (d, rest) := TakeDigits(s[1..]);
      ([s[0]] + d, rest)
    else
      ([], s)
  }

  /** frac, if s starts with a decimal point; a point without digits fails. */
  function ParseFraction(s: string): (r: Option<(string, string)>)
    ensures r.Some? ==> AllDigits(r.value.0) && PrintFraction(r.value.0) + r.value.1 == s
  {
    if s != [] && s[0] == '.' then
      var (f, rest) := TakeDigits(s[1..]);
      if f == [] then None else Some((f, rest))
    else
      Some(([], s))
  }

  /** exp, if s starts with "e" or "E"; a marker without digits fails. */
  function ParseExponent(s: string): (r: Option<(Option<Exponent>, string)>)
    ensures r.Some? ==> WfExponent(r.value.0) && PrintExponent(r.value.0) + r.value.1 == s
  {
    if s != [] && (s[0] == 'e' || s[0] == 'E') then
      var (sign, t) := ParseSign(s[1..]);
      var (d, rest) := TakeDigits(t);
      if d == [] then None
      else
        ExponentGlue(s, sign, t, d, rest);
        Some((Some(Exponent(s[0], sign, d)), rest))
    else
      Some((None, s))
  }

  /** int = zero / ( digit1-9 *DIGIT ): a leading zero stands alone. */
  function ParseInteger(s: string): (r: Option<(string, string)>)
    ensures r.Some? ==> |r.value.0| > 0 && r.value.0 + r.value.1 == s
    ensures r.Some? ==> r.value.0 == "0" || ('1' <= r.value.0[0] <= '9' && AllDigits(r.value.0))
  {
    if s == [] || !IsDigit(s[0]) then None
    else if s[0] == '0' then Some(("0", s[1..]))
    else Some(TakeDigits(s))
  }

  /** The optional sign of an exponent. */
  function ParseSign(s: string): (r: (string, string))
    ensures r.0 + r.1 == s && (r.0 == "" || r.0 == "+" || r.0 == "-")
  {
    if s != [] && (s[0] == '+' || s[0] == '-') then ([s[0]], s[1..]) else ([], s)
  }

  function ParseNumber(s: string): (r: Option<(Number, string)>)
    ensures r.Some? ==> WfNumber(r.value.0) && PrintNumber(r.value.0) + r.value.1 == s
    ensures r.Some? ==> |r.value.1| < |s|
  {
    var minus := s != [] && s[0] == '-';
    var t := if minus then s[1..] else s;
    match ParseInteger(t)
    case None => None
    case Some((integer, u)) =>
      match ParseFraction(u)
      case None => None
      case Some((f, x)) =>
        match ParseExponent(x)
        case None => None
        case Some((e, rest)) =>
          var n := Number(minus, integer, f, e);
          NumberGlue(n, s, t, u, x, rest);
          Some((n, rest))
  }

  /** One char of a string body (not the closing quotation mark). */
  function ParseChar(s: string): (r: Option<(StrChar, string)>)
    ensures r.Some? ==> WfChar(r.value.0) && PrintChar(r.value.0) + r.value.1 == s
    ensures r.Some? ==> |r.value.1| < |s|
  {
    if s == [] then None
    else if s[0] == '\\' then
      if |s| >= 2 && IsEscapeLetter(s[1]) then Some((Escape(s[1]), s[2..]))
      else if |s| >= 6 && s[1] == 'u' && AllHexDigits(s[2..6]) then Some((UnicodeEscape(s[2..6]), s[6..]))
      else None
    else if s[0] == '"' || s[0] < ' ' then None
    else Some((Unescaped(s[0]), s[1..]))
  }

  /** The chars of a string up to and including its closing quotation mark. */
  function ParseChars(s: string): (r: Option<(seq<StrChar>, string)>)
    ensures r.Some? ==> WfChars(r.value.0) && PrintChars(r.value.0) + "\"" + r.value.1 == s
    decreases |s|
  {
    if s == [] then None
    else if s[0] == '"' then Some(([], s[1..]))
    else
      match ParseChar(s)
      case None => None
      case Some((c, t)) =>
        match ParseChars(t)
        case None => None
        case Some((cs, rest)) =>
          CharsGlue(c, cs, s, t, rest);
          Some(([c] + cs, rest))
  }

  function ParseValue(s: string): (r: Option<(Value, string)>)
    ensures r.Some? ==> Wf(r.value.0) && Print(r.value.0) + r.value.1 == s
    ensures r.Some? ==> |r.value.1| < |s|
    decreases |s|, 0
  {
    if s == [] then None
    else if s[0] == '{' then
      match ParseObjectBody(s[1..])
      case None => None
      case Some((o, rest)) =>
        BracketGlue(s, PrintObjectBody(o), "}", rest);
        Some((Obj(o), rest))
    else if s[0] == '[' then
      match ParseArrayBody(s[1..])
      case None => None
      case Some((a, rest)) =>
        BracketGlue(s, PrintArrayBody(a), "]", rest);
        Some((Arr(a), rest))
    else if s[0] == '"' then
      match ParseChars(s[1..])
      case None => None
      case Some((cs, rest)) =>
        BracketGlue(s, PrintChars(cs), "\"", rest);
        Some((Str(cs), rest))
    else if s[0] == '-' || IsDigit(s[0]) then
      match ParseNumber(s)
      case None => None
      case Some((n, rest)) => Some((Num(n), rest))
    else if "true" <= s then
      LiteralGlue(s, "true");
      Some((Lit(True), s[4..]))
    else if "false" <= s then
      LiteralGlue(s, "false");
      Some((Lit(False), s[5..]))
    else if "null" <= s then
      LiteralGlue(s, "null");
      Some((Lit(Null), s[4..]))
    else None
  }

  /** What follows "[", up to and including the closing "]". */
  function ParseArrayBody(s: string): (r: Option<(ArrayBody, string)>)
    ensures r.Some? ==> WfArrayBody(r.value.0) && PrintArrayBody(r.value.0) + "]" + r.value.1 == s
    decreases |s|, 4
  {
    var (w, u) := SkipWs(s);
    if u != [] && u[0] == ']' then
      CloseGlue(s, w, u, "]");
      Some((EmptyArray(w), u[1..]))
    else
      match ParseElements(s)
      case None => None
      case Some((es, rest)) => Some((Elements(es), rest))
  }

  /** Elements separated by ",", up to and including the closing "]". */
  function ParseElements(s: string): (r: Option<(Elements, string)>)
    ensures r.Some? ==> WfElements(r.value.0) && PrintElements(r.value.0) + "]" + r.value.1 == s
    decreases |s|, 3
  {
    match ParseElement(s)
    case None => None
    case Some((x, y)) =>
      if y != [] && y[0] == ']' then
        CloseGlue(s, PrintElement(x), y, "]");
        assert PrintElements(LastElement(x)) == PrintElement(x);
        Some((LastElement(x), y[1..]))
      else if y != [] && y[0] == ',' then
        match ParseElements(y[1..])
        case None => None
        case Some((es, rest)) =>
          ListGlue(s, PrintElement(x), y, PrintElements(es), "]", rest);
          assert PrintElements(NextElement(x, es)) == PrintElement(x) + "," + PrintElements(es);
          Some((NextElement(x, es), rest))
      else None
  }

  /** A value with the white space around it. */
  function ParseElement(s: string): (r: Option<(Element, string)>)
    ensures r.Some? ==> WfElement(r.value.0) && PrintElement(r.value.0) + r.value.1 == s
    ensures r.Some? ==> |r.value.1| < |s|
    decreases |s|, 1
  {
    var (before, u) := SkipWs(s);
    match ParseValue(u)
    case None => None
    case Some((v, x)) =>
      var (after, rest) := SkipWs(x);
      var e := Element(before, v, after);
      ElementGlue(e, s, u, x, rest);
      Some((e, rest))
  }

  /** What follows "{", up to and including the closing "}". */
  function ParseObjectBody(s: string): (r: Option<(ObjectBody, string)>)
    ensures r.Some? ==> WfObjectBody(r.value.0) && PrintObjectBody(r.value.0) + "}" + r.value.1 == s
    decreases |s|, 4
  {
    var (w, u) := SkipWs(s);
    if u != [] && u[0] == '}' then
      CloseGlue(s, w, u, "}");
      Some((EmptyObject(w), u[1..]))
    else
      match ParseMembers(s)
      case None => None
      case Some((ms, rest)) => Some((Members(ms), rest))
  }

  /** Members separated by ",", up to and including the closing "}". */
  function ParseMembers(s: string): (r: Option<(Members, string)>)
    ensures r.Some? ==> WfMembers(r.value.0) && PrintMembers(r.value.0) + "}" + r.value.1 == s
    decreases |s|, 3
  {
    match ParseMember(s)
    case None => None
    case Some((m, y)) =>
      if y != [] && y[0] == '}' then
        CloseGlue(s, PrintMember(m), y, "}");
        assert PrintMembers(LastMember(m)) == PrintMember(m);
        Some((LastMember(m), y[1..]))
      else if y != [] && y[0] == ',' then
        match ParseMembers(y[1..])
        case None => None
        case Some((ms, rest)) =>
          ListGlue(s, PrintMember(m), y, PrintMembers(ms), "}", rest);
          assert PrintMembers(NextMember(m, ms)) == PrintMember(m) + "," + PrintMembers(ms);
          Some((NextMember(m, ms), rest))
      else None
  }

  /** member = string name-separator value, with the white space around
      the key and around the value. */
  function ParseMember(s: string): (r: Option<(Member, string)>)
    ensures r.Some? ==> WfMember(r.value.0) && PrintMember(r.value.0) + r.value.1 == s
    ensures r.Some? ==> |r.value.1| < |s|
    decreases |s|, 2
  {
    match ParseKey(s)
    case None => None
    case Some((k, y)) =>
      if y == [] || y[0] != ':' then None
      else
        match ParseElement(y[1..])
        case None => None
        case Some((e, rest)) =>
          SeparatorGlue(s, PrintKey(k), ':', y, PrintElement(e), rest);
          Some((Member(k, e), rest))
  }

  /** A member's name, with the white space around it. */
  function ParseKey(s: string): (r: Option<(Key, string)>)
    ensures r.Some? ==> WfKey(r.value.0) && PrintKey(r.value.0) + r.value.1 == s
    ensures r.Some? ==> |r.value.1| < |s|
  {
    var (before, u) := SkipWs(s);
    if u == [] || u[0] != '"' then None
    else
      match ParseChars(u[1..])
      case None => None
      case Some((cs, x)) =>
        var (after, rest) := SkipWs(x);
        var k := Key(before, cs, after);
        KeyGlue(k, s, u, x, rest);
        Some((k, rest))
  }

  /** JSON-text = ws value ws, with nothing after it. */
  function ParseText(s: string): (r: Option<Text>)
    ensures r.Some? ==> WfText(r.value) && PrintText(r.value) == s
  {
    var (before, u) := SkipWs(s);
    match ParseValue(u)
    case None => None
    case Some((v, x)) =>
      var (after, rest) := SkipWs(x);
      if rest == [] then
        var t := Text(before, v, after);
        TextGlue(t, s, u, x, rest);
        Some(t)
      else None
  }

  /** JSON.parse accepts s. */
  predicate IsJsonText(s: string) {
    ParseText(s).Some?
  }

  // ---------------------------------------------------------------------
  // Reassembling the input from the pieces a parse consumed

  lemma Assoc(a: string, b: string, c: string, d: string, e: string)
    ensures a + b + c + d + e == a + (b + (c + (d + e)))
  {
  }

  lemma Assoc4(a: string, b: string, c: string, d: string)
    ensures a + b + c + d == a + (b + (c + d))
  {
  }

  lemma Assoc3(a: string, b: string, c: string)
    ensures a + b + c == a + (b + c)
  {
  }

  lemma CloseGlue(s: string, head: string, y: string, close: string)
    requires s == head + y && |close| == 1 && y != [] && y[0] == close[0]
    ensures head + close + y[1..] == s
  {
    assert y == close + y[1..];
  }

  lemma SeparatorGlue(s: string, head: string, sep: char, y: string, tail: string, rest: string)
    requires s == head + y && y != [] && y[0] == sep && y[1..] == tail + rest
    ensures head + [sep] + tail + rest == s
  {
    assert y == [sep] + (tail + rest);
  }

  /** head, ",", the remaining items and the closing bracket. */
  lemma ListGlue(s: string, head: string, y: string, items: string, close: string, rest: string)
    requires s == head + y && y != [] && y[0] == ',' && y[1..] == items + close + rest
    ensures head + "," + items + close + rest == s
  {
    assert y == [','] + y[1..];
    assert y[1..] == items + (close + rest);
    assert head + "," + items + close + rest == head + ("," + (items + (close + rest)));
  }

  /** An opening character, a body, a one-character closing and the rest. */
  lemma BracketGlue(s: string, body: string, close: string, rest: string)
    requires s != [] && s[1..] == body + close + rest
    ensures [s[0]] + body + close + rest == s
  {
    assert s == [s[0]] + s[1..];
    assert [s[0]] + body + close + rest == [s[0]] + (body + close + rest);
  }

  lemma LiteralGlue(s: string, word: string)
    requires word <= s
    ensures word + s[|word|..] == s
  {
  }

  lemma TextGlue(t: Text, s: string, u: string, x: string, rest: string)
    requires s == t.before + u && u == Print(t.value) + x && x == t.after + rest && rest == []
    ensures PrintText(t) == s
  {
    assert x == t.after;
    assert s == t.before + (Print(t.value) + t.after);
  }

  lemma CharsGlue(c: StrChar, cs: seq<StrChar>, s: string, t: string, rest: string)
    requires WfChar(c) && WfChars(cs)
    requires s == PrintChar(c) + t && t == PrintChars(cs) + "\"" + rest
    ensures WfChars([c] + cs) && PrintChars([c] + cs) + "\"" + rest == s
  {
    var all := [c] + cs;
    assert all[0] == c && all[1..] == cs;
    assert PrintChars(all) == PrintChar(c) + PrintChars(cs);
    assert forall i :: 1 <= i < |all| ==> all[i] == cs[i - 1];
  }

  lemma ElementGlue(e: Element, s: string, u: string, x: string, rest: string)
    requires s == e.before + u && u == Print(e.value) + x && x == e.after + rest
    ensures PrintElement(e) + rest == s
  {
  }

  lemma KeyGlue(k: Key, s: string, u: string, x: string, rest: string)
    requires s == k.before + u && u != [] && u[0] == '"' && u[1..] == PrintChars(k.chars) + "\"" + x
    requires x == k.after + rest
    ensures PrintKey(k) + rest == s
  {
    assert u == "\"" + u[1..];
    Assoc("\"", PrintChars(k.chars), "\"", x, []);
    assert u == PrintString(k.chars) + x;
  }

  lemma NumberGlue(n: Number, s: string, t: string, u: string, x: string, rest: string)
    requires s == (if n.minus then "-" else "") + t
    requires t == n.integer + u && u == PrintFraction(n.fraction) + x && x == PrintExponent(n.exponent) + rest
    ensures PrintNumber(n) + rest == s
  {
    Assoc(if n.minus then "-" else "", n.integer, PrintFraction(n.fraction), PrintExponent(n.exponent), rest);
  }

  lemma ExponentGlue(s: string, sign: string, t: string, d: string, rest: string)
    requires s != [] && sign + t == s[1..] && d + rest == t
    ensures [s[0]] + sign + d + rest == s
  {
    Assoc3([s[0]] + sign, d, rest);
    Assoc3([s[0]], sign, d + rest);
    assert [s[0]] + s[1..] == s;
  }
}
