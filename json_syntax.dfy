/** The JSON-text grammar of section 2 of RFC 8259, written as a concrete
    syntax tree that keeps every character of the text: the insignificant
    white space, the lexeme of each number and the escapes of each string.
    A text belongs to the grammar exactly when it is the printed form of a
    well-formed tree; the recognizer in JsonParser is proved against this. */
module JsonSyntax {
  import opened Options

  /** ws = *( %x20 / %x09 / %x0A / %x0D ) */
  predicate IsWs(c: char) {
    c == ' ' || c == '\t' || c == '\n' || c == '\r'
  }

  predicate AllWs(w: string) {
    forall i :: 0 <= i < |w| ==> IsWs(w[i])
  }

  predicate IsDigit(c: char) {
    '0' <= c <= '9'
  }

  predicate AllDigits(d: string) {
    forall i :: 0 <= i < |d| ==> IsDigit(d[i])
  }

  predicate IsHexDigit(c: char) {
    IsDigit(c) || 'a' <= c <= 'f' || 'A' <= c <= 'F'
  }

  predicate AllHexDigits(h: string) {
    forall i :: 0 <= i < |h| ==> IsHexDigit(h[i])
  }

  /** The characters that may follow "\" in a two-character escape. */
  predicate IsEscapeLetter(c: char) {
    c == '"' || c == '\\' || c == '/' || c == 'b' || c == 'f' || c == 'n' || c == 'r' || c == 't'
  }

  datatype Literal = False | Null | True

  /** exp = e [ minus / plus ] 1*DIGIT; `sign` is "", "+" or "-". */
  datatype Exponent = Exponent(marker: char, sign: string, digits: string)

  /** number = [ minus ] int [ frac ] [ exp ]; an empty `fraction` stands
      for an absent frac, since a present one has at least one digit. */
  datatype Number = Number(minus: bool, integer: string, fraction: string, exponent: Option<Exponent>)

  /** One char of a string: unescaped, "\" followed by an escape letter, or
      "\u" followed by four hexadecimal digits. */
  datatype StrChar = Unescaped(c: char) | Escape(letter: char) | UnicodeEscape(hex: string)

  datatype Value =
    | Lit(lit: Literal)
    | Num(num: Number)
    | Str(chars: seq<StrChar>)
    | Arr(arr: ArrayBody)
    | Obj(obj: ObjectBody)

  /** What lies between "[" and "]": white space only, or elements. */
  datatype ArrayBody = EmptyArray(ws: string) | Elements(elems: Elements)
  datatype Elements = LastElement(item: Element) | NextElement(item: Element, rest: Elements)
  datatype Element = Element(before: string, value: Value, after: string)

  /** What lies between "{" and "}": white space only, or members. */
  datatype ObjectBody = EmptyObject(ws: string) | Members(members: Members)
  datatype Members = LastMember(member: Member) | NextMember(member: Member, rest: Members)
  /** member = string name-separator value: the key with the white space
      around it, then the value with the white space around it. */
  datatype Member = Member(key: Key, value: Element)
  datatype Key = Key(before: string, chars: seq<StrChar>, after: string)

  /** JSON-text = ws value ws */
  datatype Text = Text(before: string, value: Value, after: string)

  // ---------------------------------------------------------------------
  // Printing: the exact characters a tree stands for

  function PrintLiteral(l: Literal): string {
    match l
    case False => "false"
    case Null => "null"
    case True => "true"
  }

  function PrintExponent(e: Option<Exponent>): string {
    match e
    case None => ""
    case Some(x) => [x.marker] + x.sign + x.digits
  }

  function PrintFraction(f: string): string {
    if f == [] then "" else "." + f
  }

  function PrintNumber(n: Number): string {
    (if n.minus then "-" else "") + n.integer + PrintFraction(n.fraction) + PrintExponent(n.exponent)
  }

  function PrintChar(c: StrChar): string {
    match c
    case Unescaped(ch) => [ch]
    case Escape(ch) => ['\\', ch]
    case UnicodeEscape(h) => "\\u" + h
  }

  function PrintChars(cs: seq<StrChar>): string {
    if cs == [] then "" else PrintChar(cs[0]) + PrintChars(cs[1..])
  }

  function PrintString(cs: seq<StrChar>): string {
    "\"" + PrintChars(cs) + "\""
  }

  function Print(v: Value): string {
    match v
    case Lit(l) => PrintLiteral(l)
    case Num(n) => PrintNumber(n)
    case Str(cs) => PrintString(cs)
    case Arr(a) => "[" + PrintArrayBody(a) + "]"
    case Obj(o) => "{" + PrintObjectBody(o) + "}"
  }

  function PrintArrayBody(a: ArrayBody): string {
    match a
    case EmptyArray(w) => w
    case Elements(es) => PrintElements(es)
  }

  function PrintElements(es: Elements): string {
    match es
    case LastElement(x) => PrintElement(x)
    case NextElement(x, rest) => PrintElement(x) + "," + PrintElements(rest)
  }

  function PrintElement(x: Element): string {
    x.before + Print(x.value) + x.after
  }

  function PrintObjectBody(o: ObjectBody): string {
    match o
    case EmptyObject(w) => w
    case Members(ms) => PrintMembers(ms)
  }

  function PrintMembers(ms: Members): string {
    match ms
    case LastMember(m) => PrintMember(m)
    case NextMember(m, rest) => PrintMember(m) + "," + PrintMembers(rest)
  }

  function PrintMember(m: Member): string {
    PrintKey(m.key) + ":" + PrintElement(m.value)
  }

  function PrintKey(k: Key): string {
    k.before + PrintString(k.chars) + k.after
  }

  function PrintText(t: Text): string {
    t.before + Print(t.value) + t.after
  }

  // ---------------------------------------------------------------------
  // Well-formedness: the side conditions of the grammar's rules

  /** int = zero / ( digit1-9 *DIGIT ); frac = decimal-point 1*DIGIT */
  predicate WfNumber(n: Number) {
    (n.integer == "0" || (|n.integer| > 0 && '1' <= n.integer[0] <= '9' && AllDigits(n.integer)))
    && AllDigits(n.fraction)
    && WfExponent(n.exponent)
  }

  predicate WfExponent(e: Option<Exponent>) {
    match e
    case None => true
    case Some(x) =>
      (x.marker == 'e' || x.marker == 'E') && (x.sign == "" || x.sign == "+" || x.sign == "-")
      && |x.digits| > 0 && AllDigits(x.digits)
  }

  /** unescaped = %x20-21 / %x23-5B / %x5D-10FFFF */
  predicate WfChar(c: StrChar) {
    match c
    case Unescaped(ch) => ch != '"' && ch != '\\' && ch >= ' '
    case Escape(ch) => IsEscapeLetter(ch)
    case UnicodeEscape(h) => |h| == 4 && AllHexDigits(h)
  }

  predicate WfChars(cs: seq<StrChar>) {
    forall i :: 0 <= i < |cs| ==> WfChar(cs[i])
  }

  predicate Wf(v: Value) {
    match v
    case Lit(_) => true
    case Num(n) => WfNumber(n)
    case Str(cs) => WfChars(cs)
    case Arr(a) => WfArrayBody(a)
    case Obj(o) => WfObjectBody(o)
  }

  predicate WfArrayBody(a: ArrayBody) {
    match a
    case EmptyArray(w) => AllWs(w)
    case Elements(es) => WfElements(es)
  }

  predicate WfElements(es: Elements) {
    match es
    case LastElement(x) => WfElement(x)
    case NextElement(x, rest) => WfElement(x) && WfElements(rest)
  }

  predicate WfElement(x: Element) {
    AllWs(x.before) && Wf(x.value) && AllWs(x.after)
  }

  predicate WfObjectBody(o: ObjectBody) {
    match o
    case EmptyObject(w) => AllWs(w)
    case Members(ms) => WfMembers(ms)
  }

  predicate WfMembers(ms: Members) {
    match ms
    case LastMember(m) => WfMember(m)
    case NextMember(m, rest) => WfMember(m) && WfMembers(rest)
  }

  predicate WfMember(m: Member) {
    WfKey(m.key) && WfElement(m.value)
  }

  predicate WfKey(k: Key) {
    AllWs(k.before) && WfChars(k.chars) && AllWs(k.after)
  }

  predicate WfText(t: Text) {
    AllWs(t.before) && Wf(t.value) && AllWs(t.after)
  }

  // ---------------------------------------------------------------------
  // Facts about printed values

  /** A character that a value can begin with. */
  predicate IsValueStart(c: char) {
    c == '{' || c == '[' || c == '"' || c == '-' || IsDigit(c) || c == 'f' || c == 'n' || c == 't'
  }

  /** Every printed well-formed value is non-empty and starts with the
      character that announces its kind; in particular it never starts with
      white space. */
  lemma PrintStart(v: Value)
    requires Wf(v)
    ensures |Print(v)| > 0 && IsValueStart(Print(v)[0])
    ensures Print(v)[0] == '{' <==> v.Obj?
    ensures Print(v)[0] == '[' <==> v.Arr?
    ensures Print(v)[0] == '"' <==> v.Str?
  {
    match v
    case Lit(l) =>
    case Num(n) =>
      NumberStart(n);
    case Str(cs) =>
      assert Print(v) == "\"" + (PrintChars(cs) + "\"");
    case Arr(a) =>
      assert Print(v) == "[" + (PrintArrayBody(a) + "]");
    case Obj(o) =>
      assert Print(v) == "{" + (PrintObjectBody(o) + "}");
  }

  lemma NumberStart(n: Number)
    requires WfNumber(n)
    ensures |PrintNumber(n)| > 0
    ensures PrintNumber(n)[0] == '-' || IsDigit(PrintNumber(n)[0])
  {
    var tail := PrintFraction(n.fraction) + PrintExponent(n.exponent);
    if n.minus {
      assert PrintNumber(n) == "-" + (n.integer + tail);
    } else {
      assert PrintNumber(n) == n.integer + tail;
      assert PrintNumber(n)[0] == n.integer[0];
    }
  }
}
