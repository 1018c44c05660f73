/**
 * JSON texts (RFC 8259) as `JSON.parse` reads them, and the two texts that
 * `JSON.stringify` writes for a project `{ htmlContent, history }`: the
 * compact one and the one indented by two spaces.
 */
module Json {
  import opened Wrappers
  import opened Text

  /** A parsed JSON value; a number keeps its lexeme, as the model needs only its truthiness. */
  datatype Value =
    | Null
    | Bool(b: bool)
    | Number(lexeme: string)
    | Str(s: string)
    | Array(items: seq<Value>)
    | Object(members: seq<(string, Value)>)

  // ---------------------------------------------------------------------
  // JSON.stringify

  /** How one character appears inside a JSON string literal (ECMAScript's QuoteJSONString, section 7 of RFC 8259). */
  function EscapeChar(c: char): (r: string)
    ensures |r| >= 1
  {
    if c == '\"' then ['\\', '\"']
    else if c == '\\' then ['\\', '\\']
    else if c == '\U{0008}' then ['\\', 'b']
    else if c == '\t' then ['\\', 't']
    else if c == '\n' then ['\\', 'n']
    else if c == '\U{000C}' then ['\\', 'f']
    else if c == '\r' then ['\\', 'r']
    else if (c as int) < 0x20 then ['\\', 'u', '0', '0', HexDigitLower(c as int / 16), HexDigitLower(c as int % 16)]
    else [c]
  }

  function EscapeString(s: string): string
  {
    if s == [] then [] else EscapeChar(s[0]) + EscapeString(s[1..])
  }

  /** A JSON string literal for `s`. */
  function Quote(s: string): string
  {
    "\"" + EscapeString(s) + "\""
  }

  /**
   * The white space `JSON.stringify` puts into a project object: `outer`
   * before the closing brace, `member` before each member, `item` before
   * each element of the history and `colon` after each key.
   */
  datatype Layout = Layout(outer: string, member: string, item: string, colon: string)

  /** `JSON.stringify(value)`: no white space at all. */
  const Compact := Layout("", "", "", ":")

  /** `JSON.stringify(value, null, 2)`: two spaces per level of nesting. */
  const Indented := Layout("\n", "\n  ", "\n    ", ": ")

  function Items(items: seq<string>, indent: string): string
    requires |items| >= 1
  {
    indent + Quote(items[0]) + (if |items| == 1 then "" else "," + Items(items[1..], indent))
  }

  /** An array of strings; an empty one is written "[]" whatever the layout. */
  function ArrayText(items: seq<string>, layout: Layout): string
  {
    if items == [] then "[]" else "[" + Items(items, layout.item) + layout.member + "]"
  }

  /** The JSON text of `{ htmlContent, history }`, keys in that order. */
  function ProjectText(html: string, history: seq<string>, layout: Layout): string
  {
    "{" + (layout.member + (Quote("htmlContent") + (layout.colon + (Quote(html)
    + ("," + (layout.member + (Quote("history") + (layout.colon
    + (ArrayText(history, layout) + (layout.outer + "}"))))))))))
  }

  function Strs(items: seq<string>): (r: seq<Value>)
    ensures |r| == |items| && forall i :: 0 <= i < |items| ==> r[i] == Str(items[i])
  {
    seq(|items|, i requires 0 <= i < |items| => Str(items[i]))
  }

  /** The value `ProjectText` denotes. */
  function ProjectValue(html: string, history: seq<string>): Value
  {
    Object([("htmlContent", Str(html)), ("history", Array(Strs(history)))])
  }

  // ---------------------------------------------------------------------
  // JSON.parse

  predicate IsWs(c: char) { c == ' ' || c == '\t' || c == '\n' || c == '\r' }

  predicate AllWs(s: string) { forall i :: 0 <= i < |s| ==> IsWs(s[i]) }

  function SkipWs(s: string): (r: string)
    ensures |r| <= |s|
    ensures r == [] || !IsWs(r[0])
  {
    if s != [] && IsWs(s[0]) then SkipWs(s[1..]) else s
  }

  predicate IsDigitChar(c: char) { '0' <= c <= '9' }

  /** The number of decimal digits at the front of `s`. */
  function DigitRun(s: string): (n: nat)
    ensures n <= |s|
    ensures forall i :: 0 <= i < n ==> IsDigitChar(s[i])
    ensures n == |s| || !IsDigitChar(s[n])
  {
    if s != [] && IsDigitChar(s[0]) then 1 + DigitRun(s[1..]) else 0
  }

  /** The length of a fraction part ". digits" at the front of `s`; `None` when the dot has no digit after it. */
  function FractionLength(s: string): (r: Option<nat>)
    ensures r.Some? ==> r.value <= |s|
  {
    if s != [] && s[0] == '.' then
      var d := DigitRun(s[1..]);
      if d == 0 then None else Some(1 + d)
    else Some(0)
  }

  /** The length of an exponent part "e [sign] digits" at the front of `s`. */
  function ExponentLength(s: string): (r: Option<nat>)
    ensures r.Some? ==> r.value <= |s|
  {
    if s != [] && (s[0] == 'e' || s[0] == 'E') then
      var sign := if |s| > 1 && (s[1] == '+' || s[1] == '-') then 1 else 0;
      var d := DigitRun(s[1 + sign..]);
      if d == 0 then None else Some(1 + sign + d)
    else Some(0)
  }

  /** A number (section 6 of RFC 8259): [-] (0 | [1-9] digits) [fraction] [exponent]. */
  function ParseNumber(s: string): (r: Option<(Value, string)>)
    ensures r.Some? ==> |r.value.1| < |s|
  {
    var sign := if s != [] && s[0] == '-' then 1 else 0;
    if |s| <= sign || !IsDigitChar(s[sign]) then None
    else
      var whole := if s[sign] == '0' then 1 else DigitRun(s[sign..]);
      var p := sign + whole;
      match FractionLength(s[p..])
      case None => None
      case Some(f) =>
        match ExponentLength(s[p + f..])
        case None => None
        case Some(e) => Some((Number(s[..p + f + e]), s[p + f + e..]))
  }

  /** The value of four hexadecimal digits at the front of `s`. */
  function Hex4(s: string): (r: Option<int>)
    ensures r.Some? ==> 0 <= r.value < 0x10000 && |s| >= 4
  {
    if |s| >= 4 && IsHexDigit(s[0]) && IsHexDigit(s[1]) && IsHexDigit(s[2]) && IsHexDigit(s[3])
    then Some(((HexValue(s[0]) * 16 + HexValue(s[1])) * 16 + HexValue(s[2])) * 16 + HexValue(s[3]))
    else None
  }

  /**
   * The character an escape sequence stands for, `s` being the text after the
   * backslash. A "\u" escape of a surrogate must be the high half of a pair
   * whose low half follows; a lone surrogate is a string this model's strings
   * cannot hold, and is reported as `None`.
   */
  function ParseEscape(s: string): (r: Option<(char, string)>)
    ensures r.Some? ==> |r.value.1| < |s|
  {
    if s == [] then None
    else if s[0] == '\"' then Some(('\"', s[1..]))
    else if s[0] == '\\' then Some(('\\', s[1..]))
    else if s[0] == '/' then Some(('/', s[1..]))
    else if s[0] == 'b' then Some(('\U{0008}', s[1..]))
    else if s[0] == 'f' then Some(('\U{000C}', s[1..]))
    else if s[0] == 'n' then Some(('\n', s[1..]))
    else if s[0] == 'r' then Some(('\r', s[1..]))
    else if s[0] == 't' then Some(('\t', s[1..]))
    else if s[0] == 'u' then
      match Hex4(s[1..])
      case None => None
      case Some(u) =>
        if !(0xD800 <= u < 0xE000) then Some((u as char, s[5..]))
        else if u < 0xDC00 && |s| >= 7 && s[5] == '\\' && s[6] == 'u' then
          match Hex4(s[7..])
          case None => None
          case Some(v) =>
            if 0xDC00 <= v < 0xE000
            then Some(((0x10000 + (u - 0xD800) * 1024 + (v - 0xDC00)) as char, s[11..]))
            else None
        else None
    else None
  }

  /** The rest of a string literal after its opening quote: its characters, and the text after the closing quote. */
  function ParseStringRest(s: string): (r: Option<(string, string)>)
    ensures r.Some? ==> |r.value.1| < |s|
    decreases |s|
  {
    if s == [] then None
    else if s[0] == '\"' then Some(([], s[1..]))
    else if s[0] == '\\' then
      match ParseEscape(s[1..])
      case None => None
      case Some((c, rest)) =>
        match ParseStringRest(rest)
        case None => None
        case Some((t, after)) => Some(([c] + t, after))
    else if (s[0] as int) < 0x20 then None
    else
      match ParseStringRest(s[1..])
      case None => None
      case Some((t, after)) => Some(([s[0]] + t, after))
  }

  /** One value at the front of `s` (no white space before it). */
  function ParseValue(s: string): (r: Option<(Value, string)>)
    ensures r.Some? ==> |r.value.1| < |s|
    decreases |s|, 0
  {
    if s == [] then None
    else if s[0] == '{' then ParseObject(s[1..])
    else if s[0] == '[' then ParseArray(s[1..])
    else if s[0] == '\"' then ParseString(s[1..])
    else if s[0] == 't' || s[0] == 'f' || s[0] == 'n' then ParseLiteral(s)
    else ParseNumber(s)
  }

  /** The string literal whose opening quote preceded `s`. */
  function ParseString(s: string): (r: Option<(Value, string)>)
    ensures r.Some? ==> |r.value.1| < |s|
  {
    match ParseStringRest(s)
    case None => None
    case Some((t, rest)) => Some((Str(t), rest))
  }

  /** `true`, `false` or `null`. */
  function ParseLiteral(s: string): (r: Option<(Value, string)>)
    ensures r.Some? ==> |r.value.1| < |s|
  {
    if StartsWith(s, "true") then Some((Bool(true), s[4..]))
    else if StartsWith(s, "false") then Some((Bool(false), s[5..]))
    else if StartsWith(s, "null") then Some((Null, s[4..]))
    else None
  }

  /** An element: white space, a value, white space. */
  function ParseElement(s: string): (r: Option<(Value, string)>)
    ensures r.Some? ==> |r.value.1| < |s|
    decreases |s|, 1
  {
    match ParseValue(SkipWs(s))
    case None => None
    case Some((v, rest)) => Some((v, SkipWs(rest)))
  }

  /** The rest of an array after its '['. */
  function ParseArray(s: string): (r: Option<(Value, string)>)
    ensures r.Some? ==> |r.value.1| < |s|
    decreases |s|, 3
  {
    var t := SkipWs(s);
    if t != [] && t[0] == ']' then Some((Array([]), t[1..]))
    else
      match ParseElements(s)
      case None => None
      case Some((vs, rest)) => Some((Array(vs), rest))
  }

  /** Elements separated by ',' up to and including the closing ']'. */
  function ParseElements(s: string): (r: Option<(seq<Value>, string)>)
    ensures r.Some? ==> |r.value.1| < |s|
    decreases |s|, 2
  {
    match ParseElement(s)
    case None => None
    case Some((v, rest)) =>
      if rest != [] && rest[0] == ']' then Some(([v], rest[1..]))
      else if rest != [] && rest[0] == ',' then
        match ParseElements(rest[1..])
        case None => None
        case Some((vs, after)) => Some(([v] + vs, after))
      else None
  }

  /** The rest of an object after its '{'. */
  function ParseObject(s: string): (r: Option<(Value, string)>)
    ensures r.Some? ==> |r.value.1| < |s|
    decreases |s|, 4
  {
    var t := SkipWs(s);
    if t != [] && t[0] == '}' then Some((Object([]), t[1..]))
    else
      match ParseMembers(s)
      case None => None
      case Some((ms, rest)) => Some((Object(ms), rest))
  }

  /** Members separated by ',' up to and including the closing '}'. */
  function ParseMembers(s: string): (r: Option<(seq<(string, Value)>, string)>)
    ensures r.Some? ==> |r.value.1| < |s|
    decreases |s|, 3
  {
    match ParseMember(s)
    case None => None
    case Some((key, v, rest)) =>
      if rest != [] && rest[0] == '}' then Some(([(key, v)], rest[1..]))
      else if rest != [] && rest[0] == ',' then
        match ParseMembers(rest[1..])
        case None => None
        case Some((ms, after)) => Some(([(key, v)] + ms, after))
      else None
  }

  /** One member `ws string ws ':' element`: its key, its value and the text after it. */
  function ParseMember(s: string): (r: Option<(string, Value, string)>)
    ensures r.Some? ==> |r.value.2| < |s|
    decreases |s|, 2
  {
    var t := SkipWs(s);
    if t == [] || t[0] != '\"' then None
    else
      match ParseStringRest(t[1..])
      case None => None
      case Some((key, r1)) =>
        var r2 := SkipWs(r1);
        if r2 == [] || r2[0] != ':' then None
        else
          match ParseElement(r2[1..])
          case None => None
          case Some((v, r3)) => Some((key, v, r3))
  }

  /** `JSON.parse`; `None` where it throws SyntaxError. */
  function Parse(text: string): Option<Value>
  {
    match ParseElement(text)
    case None => None
    case Some((v, rest)) => if rest == [] then Some(v) else None
  }

  // ---------------------------------------------------------------------
  // reading a parsed value the way JavaScript does

  /** The value of the last member named `key` (later duplicates win). */
  function LastMember(ms: seq<(string, Value)>, key: string): (r: Option<Value>)
    ensures r.Some? <==> exists i :: 0 <= i < |ms| && ms[i].0 == key
    ensures r.Some? ==> exists i :: 0 <= i < |ms| && ms[i].0 == key && ms[i].1 == r.value
                                    && forall j :: i < j < |ms| ==> ms[j].0 != key
  {
    if ms == [] then None
    else if ms[|ms| - 1].0 == key then Some(ms[|ms| - 1].1)
    else LastMember(ms[..|ms| - 1], key)
  }

  /** `v.key` on a value `JSON.parse` returned other than null; `None` is `undefined`. */
  function Get(v: Value, key: string): Option<Value>
  {
    if v.Object? then LastMember(v.members, key) else None
  }

  /** The length of a number lexeme before its exponent. */
  function MantissaLength(lexeme: string): (n: nat)
    ensures n <= |lexeme|
  {
    if lexeme == [] || lexeme[0] == 'e' || lexeme[0] == 'E' then 0 else 1 + MantissaLength(lexeme[1..])
  }

  /** The mantissa of a number lexeme is all zeros, so the number is 0 or -0. */
  predicate IsZeroLexeme(lexeme: string)
  {
    forall i :: 0 <= i < MantissaLength(lexeme) ==> (lexeme[i] == '-' || lexeme[i] == '0' || lexeme[i] == '.')
  }

  /** JavaScript truthiness; `None` is `undefined`. */
  predicate Truthy(v: Option<Value>)
  {
    match v
    case None => false
    case Some(Null) => false
    case Some(Bool(b)) => b
    case Some(Number(lexeme)) => !IsZeroLexeme(lexeme)
    case Some(Str(s)) => s != []
    case Some(Array(_)) => true
    case Some(Object(_)) => true
  }

  // ---------------------------------------------------------------------
  // round trip

  lemma SkipWsStop(s: string)
    requires s == [] || !IsWs(s[0])
    ensures SkipWs(s) == s
  {
  }

  lemma {:induction false} SkipWsPrefix(w: string, s: string)
    requires AllWs(w) && (s == [] || !IsWs(s[0]))
    ensures SkipWs(w + s) == s
  {
    if w == [] {
      assert w + s == s;
    } else {
      assert (w + s)[1..] == w[1..] + s;
      SkipWsPrefix(w[1..], s);
    }
  }

  lemma EscapeCharParses(c: char, tail: string)
    ensures ParseStringRest(EscapeChar(c) + tail)
            == match ParseStringRest(tail) case None => None case Some((t, after)) => Some(([c] + t, after))
  {
    var e := EscapeChar(c);
    var s := e + tail;
    if |e| == 1 {
      assert s[0] == c && s[1..] == tail;
    } else if |e| == 2 {
      assert s[0] == '\\' && s[1..] == [e[1]] + tail;
      assert ParseEscape(s[1..]) == Some((c, tail));
    } else {
      var n := c as int;
      assert s[0] == '\\' && s[1..] == e[1..] + tail;
      var h := s[2..];
      assert h[0] == '0' && h[1] == '0' && h[2] == HexDigitLower(n / 16) && h[3] == HexDigitLower(n % 16);
      assert Hex4(h) == Some(n);
      assert s[1..][5..] == tail;
      assert ParseEscape(s[1..]) == Some((c, tail));
    }
  }

  /** The body of a string literal parses back to the string, and parsing resumes after the closing quote. */
  lemma {:induction false} EscapeStringParses(x: string, rest: string)
    ensures ParseStringRest(EscapeString(x) + "\"" + rest) == Some((x, rest))
  {
    if x == [] {
      assert EscapeString(x) + "\"" + rest == ['\"'] + rest;
    } else {
      var tail := EscapeString(x[1..]) + "\"" + rest;
      assert EscapeString(x) + "\"" + rest == EscapeChar(x[0]) + tail;
      EscapeCharParses(x[0], tail);
      EscapeStringParses(x[1..], rest);
      assert [x[0]] + x[1..] == x;
    }
  }

  lemma QuoteParses(x: string, rest: string)
    ensures ParseValue(Quote(x) + rest) == Some((Str(x), rest))
  {
    var s := Quote(x) + rest;
    assert s[0] == '\"';
    assert s[1..] == EscapeString(x) + "\"" + rest;
    EscapeStringParses(x, rest);
  }

  // single unfolding steps of the parser, stated on plain strings

  lemma ValueArray(s: string)
    requires s != [] && s[0] == '['
    ensures ParseValue(s) == ParseArray(s[1..])
  {
  }

  lemma ValueObject(s: string)
    requires s != [] && s[0] == '{'
    ensures ParseValue(s) == ParseObject(s[1..])
  {
  }

  lemma ElementStep(s: string, v: Value, r: string)
    requires ParseValue(SkipWs(s)) == Some((v, r))
    ensures ParseElement(s) == Some((v, SkipWs(r)))
  {
  }

  lemma ElementsLast(s: string, v: Value, r: string)
    requires ParseElement(s) == Some((v, r)) && r != [] && r[0] == ']'
    ensures ParseElements(s) == Some(([v], r[1..]))
  {
  }

  lemma ElementsNext(s: string, v: Value, r: string, vs: seq<Value>, after: string)
    requires ParseElement(s) == Some((v, r)) && r != [] && r[0] == ','
    requires ParseElements(r[1..]) == Some((vs, after))
    ensures ParseElements(s) == Some(([v] + vs, after))
  {
  }

  lemma ArrayEmpty(s: string)
    requires SkipWs(s) != [] && SkipWs(s)[0] == ']'
    ensures ParseArray(s) == Some((Array([]), SkipWs(s)[1..]))
  {
  }

  lemma ArrayItems(s: string, vs: seq<Value>, r: string)
    requires SkipWs(s) != [] && SkipWs(s)[0] != ']'
    requires ParseElements(s) == Some((vs, r))
    ensures ParseArray(s) == Some((Array(vs), r))
  {
  }

  lemma ObjectMembers(s: string, ms: seq<(string, Value)>, r: string)
    requires SkipWs(s) != [] && SkipWs(s)[0] != '}'
    requires ParseMembers(s) == Some((ms, r))
    ensures ParseObject(s) == Some((Object(ms), r))
  {
  }

  lemma MemberStep(s: string, key: string, r1: string, v: Value, r3: string)
    requires SkipWs(s) != [] && SkipWs(s)[0] == '\"'
    requires ParseStringRest(SkipWs(s)[1..]) == Some((key, r1))
    requires SkipWs(r1) != [] && SkipWs(r1)[0] == ':'
    requires ParseElement(SkipWs(r1)[1..]) == Some((v, r3))
    ensures ParseMember(s) == Some((key, v, r3))
  {
  }

  lemma MembersLast(s: string, key: string, v: Value, r: string)
    requires ParseMember(s) == Some((key, v, r)) && r != [] && r[0] == '}'
    ensures ParseMembers(s) == Some(([(key, v)], r[1..]))
  {
  }

  lemma MembersNext(s: string, key: string, v: Value, r: string, ms: seq<(string, Value)>, after: string)
    requires ParseMember(s) == Some((key, v, r)) && r != [] && r[0] == ','
    requires ParseMembers(r[1..]) == Some((ms, after))
    ensures ParseMembers(s) == Some(([(key, v)] + ms, after))
  {
  }

  // the texts JSON.stringify writes, read back

  lemma Cons(c: char, t: string)
    ensures [c] + t != [] && ([c] + t)[0] == c && ([c] + t)[1..] == t
  {
  }

  /** A string element surrounded by white space parses, and parsing resumes at `after`. */
  lemma ElementParses(w: string, x: string, w2: string, after: string)
    requires AllWs(w) && AllWs(w2) && (after == [] || !IsWs(after[0]))
    ensures ParseElement(w + Quote(x) + w2 + after) == Some((Str(x), after))
  {
    var tail := w2 + after;
    var t := Quote(x) + tail;
    assert w + Quote(x) + w2 + after == w + t;
    assert t == [t[0]] + t[1..] && t[0] == '\"';
    SkipWsPrefix(w, t);
    QuoteParses(x, tail);
    SkipWsPrefix(w2, after);
    ElementStep(w + t, Str(x), tail);
  }

  lemma {:induction false} ItemsParse(items: seq<string>, indent: string, close: string, rest: string)
    requires |items| >= 1 && AllWs(indent) && AllWs(close)
    ensures ParseElements(Items(items, indent) + (close + ("]" + rest))) == Some((Strs(items), rest))
    decreases |items|
  {
    if |items| == 1 {
      LastItemParses(items, indent, close, rest);
    } else {
      ItemsParse(items[1..], indent, close, rest);
      NextItemParses(items, indent, close + ("]" + rest), rest);
    }
  }

  lemma LastItemParses(items: seq<string>, indent: string, close: string, rest: string)
    requires |items| == 1 && AllWs(indent) && AllWs(close)
    ensures ParseElements(Items(items, indent) + (close + ("]" + rest))) == Some((Strs(items), rest))
  {
    var r := "]" + rest;
    var s := Items(items, indent) + (close + r);
    assert s == indent + Quote(items[0]) + close + r;
    ElementParses(indent, items[0], close, r);
    Cons(']', rest);
    ElementsLast(s, Str(items[0]), r);
    assert Strs(items) == [Str(items[0])];
  }

  /** The text of two or more items: the first, a comma, the others. */
  lemma ItemsSplit(items: seq<string>, indent: string, tail: string)
    requires |items| >= 2
    ensures Items(items, indent) + tail == indent + Quote(items[0]) + [] + ("," + (Items(items[1..], indent) + tail))
  {
  }

  lemma NextItemParses(items: seq<string>, indent: string, tail: string, rest: string)
    requires |items| >= 2 && AllWs(indent)
    requires ParseElements(Items(items[1..], indent) + tail) == Some((Strs(items[1..]), rest))
    ensures ParseElements(Items(items, indent) + tail) == Some((Strs(items), rest))
  {
    var more := Items(items[1..], indent) + tail;
    var r := "," + more;
    ItemsSplit(items, indent, tail);
    ElementParses(indent, items[0], [], r);
    Cons(',', more);
    ElementsNext(Items(items, indent) + tail, Str(items[0]), r, Strs(items[1..]), rest);
    assert Strs(items) == [Str(items[0])] + Strs(items[1..]);
  }

  /** Skipping white space before a list of items stops at the first quote. */
  lemma ItemsStart(items: seq<string>, indent: string, tail: string)
    requires |items| >= 1 && AllWs(indent)
    ensures SkipWs(Items(items, indent) + tail) != []
    ensures SkipWs(Items(items, indent) + tail)[0] == '\"'
  {
    var more := if |items| == 1 then "" else "," + Items(items[1..], indent);
    var t := Quote(items[0]) + (more + tail);
    assert Items(items, indent) + tail == indent + t;
    assert t[0] == '\"';
    SkipWsPrefix(indent, t);
  }

  lemma ArrayParses(items: seq<string>, layout: Layout, rest: string)
    requires AllWs(layout.item) && AllWs(layout.member)
    ensures ParseValue(ArrayText(items, layout) + rest) == Some((Array(Strs(items)), rest))
  {
    if items == [] {
      EmptyArrayParses(layout, rest);
    } else {
      var s := ArrayText(items, layout) + rest;
      var body := Items(items, layout.item) + layout.member + "]" + rest;
      assert s == "[" + body;
      Cons('[', body);
      ValueArray(s);
      ItemsParse(items, layout.item, layout.member, rest);
      ItemsStart(items, layout.item, layout.member + ("]" + rest));
      assert body == Items(items, layout.item) + (layout.member + ("]" + rest));
      ArrayItems(body, Strs(items), rest);
    }
  }

  lemma EmptyArrayParses(layout: Layout, rest: string)
    ensures ParseValue(ArrayText([], layout) + rest) == Some((Array(Strs([])), rest))
  {
    var s := ArrayText([], layout) + rest;
    var body := "]" + rest;
    assert s == "[" + body;
    Cons('[', body);
    ValueArray(s);
    Cons(']', rest);
    SkipWsStop(body);
    ArrayEmpty(body);
  }

  lemma {:induction false} SkipWsPrefixAgain(w: string, s: string)
    requires AllWs(w)
    ensures SkipWs(w + s) == SkipWs(s)
    decreases |w|
  {
    if w != [] {
      assert (w + s)[1..] == w[1..] + s;
      SkipWsPrefixAgain(w[1..], s);
    } else {
      assert w + s == s;
    }
  }

  /** A key string after white space parses, and parsing resumes at `r`. */
  lemma KeyParses(w: string, key: string, r: string)
    requires AllWs(w)
    ensures SkipWs(w + (Quote(key) + r)) != [] && SkipWs(w + (Quote(key) + r))[0] == '\"'
    ensures ParseStringRest(SkipWs(w + (Quote(key) + r))[1..]) == Some((key, r))
  {
    var body := EscapeString(key) + "\"" + r;
    var t := "\"" + body;
    assert Quote(key) + r == t;
    Cons('\"', body);
    SkipWsPrefix(w, t);
    EscapeStringParses(key, r);
  }

  /** The separator between a key and its value. */
  lemma ColonParses(colon: string, value: string, v: Value, after: string)
    requires colon == ":" || colon == ": "
    requires ParseElement(value) == Some((v, after))
    ensures SkipWs(colon + value) != [] && SkipWs(colon + value)[0] == ':'
    ensures ParseElement(SkipWs(colon + value)[1..]) == Some((v, after))
  {
    var t := colon[1..] + value;
    assert colon + value == [':'] + t;
    Cons(':', t);
    SkipWsStop(colon + value);
    SkipWsPrefixAgain(colon[1..], value);
    ElementAgain(t, value, v, after);
  }

  /** A member `"key"` colon value, where `element` parses the value. */
  lemma MemberParses(w: string, key: string, colon: string, value: string, v: Value, after: string)
    requires AllWs(w) && (colon == ":" || colon == ": ")
    requires ParseElement(value) == Some((v, after))
    ensures ParseMember(w + (Quote(key) + (colon + value))) == Some((key, v, after))
  {
    var s := w + (Quote(key) + (colon + value));
    var r1 := colon + value;
    KeyParses(w, key, r1);
    ColonParses(colon, value, v, after);
    MemberStep(s, key, r1, v, after);
  }

  /** White space before an element changes nothing. */
  lemma ElementAgain(s: string, value: string, v: Value, after: string)
    requires SkipWs(s) == SkipWs(value)
    requires ParseElement(value) == Some((v, after))
    ensures ParseElement(s) == Some((v, after))
  {
  }

  /** A string element with nothing around it. */
  lemma StringElementParses(x: string, after: string)
    requires after == [] || !IsWs(after[0])
    ensures ParseElement(Quote(x) + after) == Some((Str(x), after))
  {
    var t := Quote(x) + after;
    assert t[0] == '\"';
    SkipWsStop(t);
    QuoteParses(x, after);
    SkipWsStop(after);
    ElementStep(t, Str(x), after);
  }

  /** A string member followed by further members. */
  lemma FirstMemberParses(m: string, key: string, colon: string, x: string, second: string, ms: seq<(string, Value)>, rest: string)
    requires AllWs(m) && (colon == ":" || colon == ": ")
    requires ParseMembers(second) == Some((ms, rest))
    ensures ParseMembers(m + (Quote(key) + (colon + (Quote(x) + ("," + second))))) == Some(([(key, Str(x))] + ms, rest))
  {
    var afterValue := "," + second;
    Cons(',', second);
    StringElementParses(x, afterValue);
    MemberParses(m, key, colon, Quote(x) + afterValue, Str(x), afterValue);
    MembersNext(m + (Quote(key) + (colon + (Quote(x) + afterValue))), key, Str(x), afterValue, ms, rest);
  }

  lemma QuoteHead(key: string, r: string)
    ensures Quote(key) + r != [] && (Quote(key) + r)[0] == '\"'
  {
  }

  /** An object whose members start with a quoted key. */
  lemma ObjectParses(m: string, t: string, ms: seq<(string, Value)>, rest: string)
    requires AllWs(m) && t != [] && t[0] == '\"'
    requires ParseMembers(m + t) == Some((ms, rest))
    ensures ParseValue("{" + (m + t)) == Some((Object(ms), rest))
  {
    SkipWsPrefix(m, t);
    ObjectMembers(m + t, ms, rest);
    Cons('{', m + t);
    ValueObject("{" + (m + t));
  }

  /** The last member of an object, whose value `element` parses. */
  lemma LastMemberParses(m: string, key: string, colon: string, value: string, v: Value, outer: string, rest: string)
    requires AllWs(m) && AllWs(outer) && (colon == ":" || colon == ": ")
    requires ParseValue(value + (outer + ("}" + rest))) == Some((v, outer + ("}" + rest)))
    ensures ParseMembers(m + (Quote(key) + (colon + (value + (outer + ("}" + rest)))))) == Some(([(key, v)], rest))
  {
    var close := "}" + rest;
    var t := value + (outer + close);
    ParseValueStart(value + (outer + close), v, outer + close);
    SkipWsStop(t);
    Cons('}', rest);
    SkipWsPrefix(outer, close);
    ElementStep(t, v, outer + close);
    MemberParses(m, key, colon, t, v, close);
    MembersLast(m + (Quote(key) + (colon + t)), key, v, close);
  }

  /** Text that a value parses from does not start with white space. */
  lemma ParseValueStart(s: string, v: Value, r: string)
    requires ParseValue(s) == Some((v, r))
    ensures s == [] || !IsWs(s[0])
  {
  }

  /**
   * An object of two members, a string and a value that `value` denotes, laid
   * out with `m` before each member, `colon` after each key and `outer`
   * before the closing brace.
   */
  lemma TwoMemberObjectParses(m: string, colon: string, k1: string, x: string, k2: string, value: string, v: Value, outer: string, rest: string)
    requires AllWs(m) && AllWs(outer) && (colon == ":" || colon == ": ")
    requires ParseValue(value + (outer + ("}" + rest))) == Some((v, outer + ("}" + rest)))
    ensures ParseValue("{" + (m + (Quote(k1) + (colon + (Quote(x) + ("," + (m + (Quote(k2) + (colon + (value + (outer + "}")))))))))) + rest)
         == Some((Object([(k1, Str(x)), (k2, v)]), rest))
  {
    var second := m + (Quote(k2) + (colon + (value + (outer + ("}" + rest)))));
    LastMemberParses(m, k2, colon, value, v, outer, rest);
    FirstMemberParses(m, k1, colon, x, second, [(k2, v)], rest);
    var t := Quote(k1) + (colon + (Quote(x) + ("," + second)));
    QuoteHead(k1, colon + (Quote(x) + ("," + second)));
    ObjectParses(m, t, [(k1, Str(x))] + [(k2, v)], rest);
    assert [(k1, Str(x))] + [(k2, v)] == [(k1, Str(x)), (k2, v)];
    Reassociate(m, Quote(k1), colon, Quote(x), m, Quote(k2), colon, value, outer, rest);
  }

  /** A project text in either layout parses to the project value, and parsing resumes after it. */
  lemma ProjectTextParses(html: string, history: seq<string>, layout: Layout, rest: string)
    requires AllWs(layout.outer) && AllWs(layout.member) && AllWs(layout.item)
    requires layout.colon == ":" || layout.colon == ": "
    ensures ParseValue(ProjectText(html, history, layout) + rest) == Some((ProjectValue(html, history), rest))
  {
    ArrayParses(history, layout, layout.outer + ("}" + rest));
    TwoMemberObjectParses(layout.member, layout.colon, "htmlContent", html, "history", ArrayText(history, layout),
      Array(Strs(history)), layout.outer, rest);
  }

  lemma Reassociate(a: string, b: string, c: string, d: string, e: string, f: string, g: string, h: string, i: string, rest: string)
    ensures ("{" + (a + (b + (c + (d + ("," + (e + (f + (g + (h + (i + "}"))))))))))) + rest
         == "{" + (a + (b + (c + (d + ("," + (e + (f + (g + (h + (i + ("}" + rest)))))))))))
  {
  }

  lemma ParseAlone(t: string, v: Value)
    requires ParseValue(t + []) == Some((v, []))
    ensures Parse(t) == Some(v)
  {
    assert t + [] == t;
    ParseValueStart(t, v, []);
    SkipWsStop(t);
    SkipWsStop([]);
  }

  lemma ParseFramed(t: string, v: Value)
    requires ParseValue(t + "\n") == Some((v, "\n"))
    ensures Parse("\n" + t + "\n") == Some(v)
  {
    var s := "\n" + t + "\n";
    assert s == "\n" + (t + "\n");
    ParseValueStart(t + "\n", v, "\n");
    SkipWsPrefix("\n", t + "\n");
    assert "\n" == "\n" + [];
    SkipWsPrefix("\n", []);
  }

  /** `JSON.parse(JSON.stringify({ htmlContent, history }))` gives the object back. */
  lemma ParseCompact(html: string, history: seq<string>)
    ensures Parse(ProjectText(html, history, Compact)) == Some(ProjectValue(html, history))
  {
    ProjectTextParses(html, history, Compact, []);
    ParseAlone(ProjectText(html, history, Compact), ProjectValue(html, history));
  }

  /** The same for the indented text, with a line break before and after it. */
  lemma ParseIndented(html: string, history: seq<string>)
    ensures Parse("\n" + ProjectText(html, history, Indented) + "\n") == Some(ProjectValue(html, history))
  {
    ProjectTextParses(html, history, Indented, "\n");
    ParseFramed(ProjectText(html, history, Indented), ProjectValue(html, history));
  }

  // ---------------------------------------------------------------------
  // text that the serialiser copies unchanged

  /** A character `JSON.stringify` writes as itself inside a string literal. */
  predicate IsPlain(c: char)
  {
    c as int >= 0x20 && c != '\"' && c != '\\'
  }

  lemma {:induction false} EscapeStringAppend(a: string, b: string)
    ensures EscapeString(a + b) == EscapeString(a) + EscapeString(b)
  {
    if a == [] {
      assert a + b == b;
    } else {
      assert (a + b)[0] == a[0] && (a + b)[1..] == a[1..] + b;
      EscapeStringAppend(a[1..], b);
    }
  }

  lemma {:induction false} EscapePlain(s: string)
    requires forall i :: 0 <= i < |s| ==> IsPlain(s[i])
    ensures EscapeString(s) == s
  {
    if s != [] {
      EscapePlain(s[1..]);
      assert [s[0]] + s[1..] == s;
    }
  }

  /** Text of plain characters in the document appears, as it is, in every project text. */
  lemma ProjectTextKeeps(html: string, history: seq<string>, layout: Layout, pattern: string)
    requires Contains(html, pattern)
    requires forall i :: 0 <= i < |pattern| ==> IsPlain(pattern[i])
    ensures Contains(ProjectText(html, history, layout), pattern)
  {
    var a, b := ContainsSplit(html, pattern);
    EscapeStringAppend(a + pattern, b);
    EscapeStringAppend(a, pattern);
    EscapePlain(pattern);
    var e := EscapeString(html);
    assert e == EscapeString(a) + pattern + EscapeString(b);
    assert Contains(pattern, pattern) by { assert OccursAt(pattern, pattern, 0); }
    ContainsRight(EscapeString(a), pattern, pattern);
    ContainsLeft(EscapeString(a) + pattern, EscapeString(b), pattern);
    ContainsRight("\"", e, pattern);
    ContainsLeft("\"" + e, "\"", pattern);
    var rest := "," + (layout.member + (Quote("history") + (layout.colon
      + (ArrayText(history, layout) + (layout.outer + "}")))));
    ContainsLeft(Quote(html), rest, pattern);
    ContainsRight(layout.colon, Quote(html) + rest, pattern);
    ContainsRight(Quote("htmlContent"), layout.colon + (Quote(html) + rest), pattern);
    ContainsRight(layout.member, Quote("htmlContent") + (layout.colon + (Quote(html) + rest)), pattern);
    ContainsRight("{", layout.member + (Quote("htmlContent") + (layout.colon + (Quote(html) + rest))), pattern);
  }
}
