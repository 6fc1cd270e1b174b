/** The recognizer reads back every well-formed syntax tree, so together
    with the soundness its functions promise, JSON.parse as modelled accepts
    exactly the texts of the RFC 8259 grammar. */
module JsonCompleteness {
  import opened Options
  import opened JsonSyntax
  import opened JsonParser

  /** A character that would extend a number lexeme if it followed one. */
  predicate ContinuesNumber(c: char) {
    IsDigit(c) || c == '.' || c == 'e' || c == 'E'
  }

  /** What may follow a value without being read as part of it. */
  predicate CanFollowValue(rest: string) {
    rest == [] || !ContinuesNumber(rest[0])
  }

  /** What may follow an element or a member: nor white space either, since
      that belongs to the element or member itself. */
  predicate CanFollowItem(rest: string) {
    rest == [] || (!IsWs(rest[0]) && !ContinuesNumber(rest[0]))
  }

  lemma {:induction false} SkipWsExact(w: string, rest: string)
    requires AllWs(w) && (rest == [] || !IsWs(rest[0]))
    ensures SkipWs(w + rest) == (w, rest)
    decreases |w|
  {
    if w == [] {
      assert w + rest == rest;
    } else {
      assert (w + rest)[0] == w[0];
      assert (w + rest)[1..] == w[1..] + rest;
      SkipWsExact(w[1..], rest);
      assert [w[0]] + w[1..] == w;
    }
  }

  lemma {:induction false} TakeDigitsExact(d: string, rest: string)
    requires AllDigits(d) && (rest == [] || !IsDigit(rest[0]))
    ensures TakeDigits(d + rest) == (d, rest)
    decreases |d|
  {
    if d == [] {
      assert d + rest == rest;
    } else {
      assert (d + rest)[0] == d[0];
      assert (d + rest)[1..] == d[1..] + rest;
      TakeDigitsExact(d[1..], rest);
      assert [d[0]] + d[1..] == d;
    }
  }

  lemma {:induction false} FractionComplete(f: string, rest: string)
    requires AllDigits(f)
    requires rest == [] || (!IsDigit(rest[0]) && rest[0] != '.')
    ensures ParseFraction(PrintFraction(f) + rest) == Some((f, rest))
  {
    if f != [] {
      var s := PrintFraction(f) + rest;
      assert s == "." + (f + rest);
      assert s[1..] == f + rest;
      TakeDigitsExact(f, rest);
    } else {
      assert PrintFraction(f) + rest == rest;
    }
  }

  lemma {:induction false} ExponentComplete(e: Option<Exponent>, rest: string)
    requires WfExponent(e) && CanFollowValue(rest)
    ensures ParseExponent(PrintExponent(e) + rest) == Some((e, rest))
  {
    match e
    case None =>
      assert PrintExponent(e) + rest == rest;
    case Some(x) =>
      PresentExponentComplete(x, rest);
  }

  lemma {:induction false} PresentExponentComplete(x: Exponent, rest: string)
    requires WfExponent(Some(x)) && CanFollowValue(rest)
    ensures ParseExponent(PrintExponent(Some(x)) + rest) == Some((Some(x), rest))
  {
    var t := x.digits + rest;
    var s := PrintExponent(Some(x)) + rest;
    ExponentSplit(x, rest);
    assert t[0] == x.digits[0];
    SignComplete(x.sign, t);
    TakeDigitsExact(x.digits, rest);
    assert Exponent(s[0], x.sign, x.digits) == x;
  }

  lemma ExponentSplit(x: Exponent, rest: string)
    ensures var s := PrintExponent(Some(x)) + rest;
            s != [] && s[0] == x.marker && s[1..] == x.sign + (x.digits + rest)
  {
    var a := PrintExponent(Some(x));
    var tail := x.sign + x.digits;
    Assoc3([x.marker], x.sign, x.digits);
    assert a == [x.marker] + tail;
    assert a[1..] == tail;
    assert (a + rest)[1..] == a[1..] + rest;
    Assoc3(x.sign, x.digits, rest);
  }

  lemma {:induction false} SignComplete(sign: string, rest: string)
    requires sign == "" || sign == "+" || sign == "-"
    requires rest != [] && IsDigit(rest[0])
    ensures ParseSign(sign + rest) == (sign, rest)
  {
    if sign != "" {
      assert (sign + rest)[0] == sign[0] && (sign + rest)[1..] == rest;
    } else {
      assert sign + rest == rest;
    }
  }

  lemma {:induction false} IntegerComplete(i: string, rest: string)
    requires i == "0" || (|i| > 0 && '1' <= i[0] <= '9' && AllDigits(i))
    requires rest == [] || !IsDigit(rest[0])
    ensures ParseInteger(i + rest) == Some((i, rest))
  {
    var s := i + rest;
    assert s[0] == i[0];
    if i == "0" {
      assert s[1..] == rest;
    } else {
      TakeDigitsExact(i, rest);
    }
  }

  lemma {:induction false} NumberComplete(n: Number, rest: string)
    requires WfNumber(n) && CanFollowValue(rest)
    ensures ParseNumber(PrintNumber(n) + rest) == Some((n, rest))
  {
    var x := PrintExponent(n.exponent) + rest;
    var u := PrintFraction(n.fraction) + x;
    NumberSplit(n, rest);
    ExponentComplete(n.exponent, rest);
    assert x == [] || (!IsDigit(x[0]) && x[0] != '.') by {
      if n.exponent.Some? {
        assert x[0] == n.exponent.value.marker;
      } else {
        assert x == rest;
      }
    }
    FractionComplete(n.fraction, x);
    assert u == [] || !IsDigit(u[0]) by {
      if n.fraction != [] {
        assert u[0] == '.';
      } else {
        assert u == x;
      }
    }
    IntegerComplete(n.integer, u);
  }

  /** Where ParseNumber finds the sign and the integer part of a printed number. */
  lemma NumberSplit(n: Number, rest: string)
    requires WfNumber(n)
    ensures var s := PrintNumber(n) + rest;
            var t := n.integer + (PrintFraction(n.fraction) + (PrintExponent(n.exponent) + rest));
            (s != [] && s[0] == '-') == n.minus && (if n.minus then s[1..] else s) == t
  {
    var s := PrintNumber(n) + rest;
    var sign := if n.minus then "-" else "";
    var t := n.integer + (PrintFraction(n.fraction) + (PrintExponent(n.exponent) + rest));
    Assoc(sign, n.integer, PrintFraction(n.fraction), PrintExponent(n.exponent), rest);
    assert s == sign + t;
    if n.minus {
      assert s[0] == '-' && s[1..] == t;
    } else {
      assert s == t;
      assert s[0] == n.integer[0];
    }
  }

  lemma {:induction false} CharComplete(c: StrChar, rest: string)
    requires WfChar(c)
    ensures ParseChar(PrintChar(c) + rest) == Some((c, rest))
  {
    var s := PrintChar(c) + rest;
    match c
    case Unescaped(ch) =>
      assert s[0] == ch && s[1..] == rest;
    case Escape(ch) =>
      assert s[0] == '\\' && s[1] == ch && s[2..] == rest;
    case UnicodeEscape(h) =>
      assert s == "\\u" + (h + rest);
      assert s[0] == '\\' && s[1] == 'u' && s[2..6] == h && s[6..] == rest;
  }

  lemma {:induction false} CharsComplete(cs: seq<StrChar>, rest: string)
    requires WfChars(cs)
    ensures ParseChars(PrintChars(cs) + "\"" + rest) == Some((cs, rest))
    decreases |cs|
  {
    var s := PrintChars(cs) + "\"" + rest;
    if cs == [] {
      assert s == "\"" + rest;
    } else {
      var t := PrintChars(cs[1..]) + "\"" + rest;
      Assoc4(PrintChar(cs[0]), PrintChars(cs[1..]), "\"", rest);
      assert s == PrintChar(cs[0]) + t;
      assert WfChar(cs[0]);
      assert s[0] != '"' by {
        match cs[0]
        case Unescaped(ch) =>
        case Escape(ch) =>
        case UnicodeEscape(h) =>
      }
      CharComplete(cs[0], t);
      assert WfChars(cs[1..]) by {
        forall i | 0 <= i < |cs[1..]| ensures WfChar(cs[1..][i]) { assert cs[1..][i] == cs[i + 1]; }
      }
      CharsComplete(cs[1..], rest);
      assert [cs[0]] + cs[1..] == cs;
    }
  }

  lemma {:induction false} ValueComplete(v: Value, rest: string)
    requires Wf(v) && CanFollowValue(rest)
    ensures ParseValue(Print(v) + rest) == Some((v, rest))
    decreases v, 1
  {
    match v
    case Lit(l) => LiteralComplete(l, rest);
    case Num(n) => NumberValueComplete(n, rest);
    case Str(cs) => StringValueComplete(cs, rest);
    case Arr(a) => ArrayValueComplete(a, rest);
    case Obj(o) => ObjectValueComplete(o, rest);
  }

  lemma {:induction false} NumberValueComplete(n: Number, rest: string)
    requires WfNumber(n) && CanFollowValue(rest)
    ensures ParseValue(PrintNumber(n) + rest) == Some((Num(n), rest))
  {
    var s := PrintNumber(n) + rest;
    NumberStart(n);
    assert s[0] == PrintNumber(n)[0];
    NumberComplete(n, rest);
    NumberDispatch(s, n, rest);
  }

  /** A value opening with "-" or a digit is read as a number. */
  lemma NumberDispatch(s: string, n: Number, rest: string)
    requires s != [] && (s[0] == '-' || IsDigit(s[0]))
    requires ParseNumber(s) == Some((n, rest))
    ensures ParseValue(s) == Some((Num(n), rest))
  {
    assert s[0] != '{' && s[0] != '[' && s[0] != '"';
  }

  lemma {:induction false} StringValueComplete(cs: seq<StrChar>, rest: string)
    requires WfChars(cs)
    ensures ParseValue(PrintString(cs) + rest) == Some((Str(cs), rest))
  {
    var s := PrintString(cs) + rest;
    Assoc("\"", PrintChars(cs), "\"", rest, []);
    assert s[0] == '"' && s[1..] == PrintChars(cs) + "\"" + rest;
    CharsComplete(cs, rest);
  }

  lemma {:induction false} ArrayValueComplete(a: ArrayBody, rest: string)
    requires WfArrayBody(a)
    ensures ParseValue(Print(Arr(a)) + rest) == Some((Arr(a), rest))
    decreases a, 5
  {
    var s := Print(Arr(a)) + rest;
    Assoc("[", PrintArrayBody(a), "]", rest, []);
    assert s[0] == '[' && s[1..] == PrintArrayBody(a) + "]" + rest;
    ArrayBodyComplete(a, rest);
  }

  lemma {:induction false} ObjectValueComplete(o: ObjectBody, rest: string)
    requires WfObjectBody(o)
    ensures ParseValue(Print(Obj(o)) + rest) == Some((Obj(o), rest))
    decreases o, 5
  {
    var s := Print(Obj(o)) + rest;
    Assoc("{", PrintObjectBody(o), "}", rest, []);
    assert s[0] == '{' && s[1..] == PrintObjectBody(o) + "}" + rest;
    ObjectBodyComplete(o, rest);
  }

  lemma {:induction false} LiteralComplete(l: Literal, rest: string)
    ensures ParseValue(PrintLiteral(l) + rest) == Some((Lit(l), rest))
  {
    var s := PrintLiteral(l) + rest;
    match l {
      case True => assert s[0] == 't' && s[..4] == "true" && s[4..] == rest;
      case False => assert s[0] == 'f' && s[..5] == "false" && s[5..] == rest;
      case Null => assert s[0] == 'n' && s[..4] == "null" && s[4..] == rest;
    }
  }

  lemma {:induction false} ElementComplete(x: Element, rest: string)
    requires WfElement(x) && CanFollowItem(rest)
    ensures ParseElement(PrintElement(x) + rest) == Some((x, rest))
    decreases x, 0
  {
    var tail := x.after + rest;
    var u := Print(x.value) + tail;
    Assoc4(x.before, Print(x.value), x.after, rest);
    assert PrintElement(x) + rest == x.before + u;
    PrintStart(x.value);
    assert u[0] == Print(x.value)[0];
    SkipWsExact(x.before, u);
    assert CanFollowValue(tail) by {
      if x.after != [] {
        assert tail[0] == x.after[0];
      } else {
        assert tail == rest;
      }
    }
    ValueComplete(x.value, tail);
    SkipWsExact(x.after, rest);
    assert Element(x.before, x.value, x.after) == x;
  }

  lemma {:induction false} ElementsComplete(es: Elements, rest: string)
    requires WfElements(es)
    ensures ParseElements(PrintElements(es) + "]" + rest) == Some((es, rest))
    decreases es, 1
  {
    match es
    case LastElement(x) =>
      Assoc3(PrintElement(x), "]", rest);
      ElementComplete(x, "]" + rest);
    case NextElement(x, more) =>
      var tail := PrintElements(more) + "]" + rest;
      Assoc(PrintElement(x), ",", PrintElements(more), "]", rest);
      Assoc3(PrintElements(more), "]", rest);
      assert PrintElements(es) + "]" + rest == PrintElement(x) + ("," + tail);
      ElementComplete(x, "," + tail);
      assert ("," + tail)[1..] == tail;
      ElementsComplete(more, rest);
  }

  /** The first non-blank character of printed elements opens a value. */
  lemma {:induction false} ElementsStart(es: Elements, rest: string)
    requires WfElements(es)
    ensures var (_, u) := SkipWs(PrintElements(es) + rest); u != [] && IsValueStart(u[0])
  {
    var x := es.item;
    var body := if es.LastElement? then [] else "," + PrintElements(es.rest);
    assert PrintElements(es) == PrintElement(x) + body;
    var u := Print(x.value) + (x.after + (body + rest));
    Assoc(x.before, Print(x.value), x.after, body, rest);
    assert PrintElements(es) + rest == x.before + u;
    PrintStart(x.value);
    assert u[0] == Print(x.value)[0];
    SkipWsExact(x.before, u);
  }

  lemma {:induction false} ArrayBodyComplete(a: ArrayBody, rest: string)
    requires WfArrayBody(a)
    ensures ParseArrayBody(PrintArrayBody(a) + "]" + rest) == Some((a, rest))
    decreases a, 2
  {
    match a
    case EmptyArray(w) =>
      Assoc3(w, "]", rest);
      SkipWsExact(w, "]" + rest);
    case Elements(es) =>
      ElementsStart(es, "]" + rest);
      Assoc3(PrintElements(es), "]", rest);
      ElementsComplete(es, rest);
  }

  lemma {:induction false} KeyComplete(k: Key, rest: string)
    requires WfKey(k) && (rest == [] || !IsWs(rest[0]))
    ensures ParseKey(PrintKey(k) + rest) == Some((k, rest))
  {
    var x := k.after + rest;
    var u := "\"" + (PrintChars(k.chars) + "\"" + x);
    KeyGlue(k, k.before + u, u, x, rest);
    SkipWsExact(k.before, u);
    assert u[1..] == PrintChars(k.chars) + "\"" + x;
    CharsComplete(k.chars, x);
    SkipWsExact(k.after, rest);
  }

  /** The first non-blank character of a printed key is its opening quote. */
  lemma {:induction false} KeyStart(k: Key, rest: string)
    requires WfKey(k)
    ensures var (_, u) := SkipWs(PrintKey(k) + rest); u != [] && u[0] == '"'
  {
    var u := "\"" + (PrintChars(k.chars) + "\"" + k.after + rest);
    Assoc(k.before, "\"", PrintChars(k.chars) + "\"", k.after, rest);
    assert PrintKey(k) + rest == k.before + u;
    SkipWsExact(k.before, u);
  }

  lemma {:induction false} MemberComplete(m: Member, rest: string)
    requires WfMember(m) && CanFollowItem(rest)
    ensures ParseMember(PrintMember(m) + rest) == Some((m, rest))
    decreases m, 0
  {
    var y := ":" + (PrintElement(m.value) + rest);
    Assoc4(PrintKey(m.key), ":", PrintElement(m.value), rest);
    assert PrintMember(m) + rest == PrintKey(m.key) + y;
    assert y[0] == ':';
    KeyComplete(m.key, y);
    assert y[1..] == PrintElement(m.value) + rest;
    ElementComplete(m.value, rest);
    assert Member(m.key, m.value) == m;
  }

  lemma {:induction false} MembersComplete(ms: Members, rest: string)
    requires WfMembers(ms)
    ensures ParseMembers(PrintMembers(ms) + "}" + rest) == Some((ms, rest))
    decreases ms, 1
  {
    match ms
    case LastMember(m) =>
      Assoc3(PrintMember(m), "}", rest);
      MemberComplete(m, "}" + rest);
    case NextMember(m, more) =>
      var tail := PrintMembers(more) + "}" + rest;
      Assoc(PrintMember(m), ",", PrintMembers(more), "}", rest);
      Assoc3(PrintMembers(more), "}", rest);
      assert PrintMembers(ms) + "}" + rest == PrintMember(m) + ("," + tail);
      MemberComplete(m, "," + tail);
      assert ("," + tail)[1..] == tail;
      MembersComplete(more, rest);
  }

  /** The first non-blank character of printed members opens the key. */
  lemma {:induction false} MembersStart(ms: Members, rest: string)
    requires WfMembers(ms)
    ensures var (_, u) := SkipWs(PrintMembers(ms) + rest); u != [] && u[0] == '"'
  {
    var m := ms.member;
    var body := if ms.LastMember? then [] else "," + PrintMembers(ms.rest);
    assert PrintMembers(ms) == PrintMember(m) + body;
    Assoc(PrintKey(m.key), ":", PrintElement(m.value), body, rest);
    KeyStart(m.key, ":" + (PrintElement(m.value) + (body + rest)));
  }

  lemma {:induction false} ObjectBodyComplete(o: ObjectBody, rest: string)
    requires WfObjectBody(o)
    ensures ParseObjectBody(PrintObjectBody(o) + "}" + rest) == Some((o, rest))
    decreases o, 2
  {
    match o
    case EmptyObject(w) =>
      Assoc3(w, "}", rest);
      SkipWsExact(w, "}" + rest);
    case Members(ms) =>
      MembersStart(ms, "}" + rest);
      Assoc3(PrintMembers(ms), "}", rest);
      MembersComplete(ms, rest);
  }

  /** The parser reads every well-formed JSON text back to its tree. */
  lemma {:induction false} TextComplete(t: Text)
    requires WfText(t)
    ensures ParseText(PrintText(t)) == Some(t)
  {
    var u := Print(t.value) + t.after;
    assert PrintText(t) == t.before + u;
    PrintStart(t.value);
    assert u[0] == Print(t.value)[0];
    SkipWsExact(t.before, u);
    ValueComplete(t.value, t.after);
    SkipWsExact(t.after, []);
    assert t.after + [] == t.after;
  }

  /** JSON.parse, as modelled, accepts exactly the texts that the RFC 8259
      grammar derives. */
  lemma {:induction false} IsJsonTextIff(s: string)
    ensures IsJsonText(s) <==> exists t :: WfText(t) && PrintText(t) == s
  {
    if exists t :: WfText(t) && PrintText(t) == s {
      var t :| WfText(t) && PrintText(t) == s;
      TextComplete(t);
    }
  }
}
