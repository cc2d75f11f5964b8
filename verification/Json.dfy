/**
  JSON texts (RFC 8259) with their layout: the grammar as a concrete syntax,
  its rendering, and a recursive-descent parser that is proved to be the exact
  inverse of rendering.  A string literal stays lexical: raw characters and
  escapes are kept apart, so that deleting U+0020 can be told from decoding
  the escape `\u0020`.
*/
module Json {

  // ---------- characters (sections 2, 6 and 7) ----------

  predicate IsLayout(c: char) {
    c == ' ' || c == '\t' || c == '\n' || c == '\r'
  }

  predicate IsDigit(c: char) {
    '0' <= c <= '9'
  }

  predicate IsHex(c: char) {
    IsDigit(c) || 'a' <= c <= 'f' || 'A' <= c <= 'F'
  }

  predicate IsNumberChar(c: char) {
    IsDigit(c) || c == '-' || c == '+' || c == '.' || c == 'e' || c == 'E'
  }

  predicate AllLayout(s: string) {
    forall i :: 0 <= i < |s| ==> IsLayout(s[i])
  }

  // ---------- numbers (section 6) ----------

  /** The longest prefix of digits. */
  function DigitRun(s: string): (run: string)
    ensures run <= s
    ensures forall i :: 0 <= i < |run| ==> IsDigit(run[i])
    ensures |run| < |s| ==> !IsDigit(s[|run|])
  {
    if s == "" || !IsDigit(s[0]) then "" else [s[0]] + DigitRun(s[1..])
  }

  predicate IsNumber(s: string) {
    if s != "" && s[0] == '-' then IsUnsigned(s[1..]) else IsUnsigned(s)
  }

  predicate IsUnsigned(s: string) {
    var digits := DigitRun(s);
    digits != "" && (s[0] == '0' ==> |digits| == 1) && IsFraction(s[|digits|..])
  }

  predicate IsFraction(s: string) {
    if s != "" && s[0] == '.' then
      var digits := DigitRun(s[1..]);
      digits != "" && IsExponent(s[1 + |digits|..])
    else IsExponent(s)
  }

  predicate IsExponent(s: string) {
    s == "" ||
    ((s[0] == 'e' || s[0] == 'E') &&
     var t := if |s| > 1 && (s[1] == '+' || s[1] == '-') then s[2..] else s[1..];
     t != "" && DigitRun(t) == t)
  }

  // ---------- concrete syntax ----------

  datatype Piece =
    | Raw(c: char)
    | Escape(c: char)
    | Unicode(hex: string)

  datatype Value =
    | Null
    | True
    | False
    | Number(lexeme: string)
    | Literal(pieces: seq<Piece>)
    | EmptyArray(gap: string)
    | Array(items: Elements)
    | EmptyObject(gap: string)
    | Object(members: Members)

  /** A value between the layout before and after it. */
  datatype Element = Element(before: string, value: Value, after: string)

  datatype Elements = LastItem(e: Element) | Item(e: Element, tail: Elements)

  datatype Member = Member(before: string, key: seq<Piece>, after: string, e: Element)

  datatype Members = LastMember(m: Member) | NextMember(m: Member, tail: Members)

  // ---------- what the grammar allows ----------

  predicate LegalPiece(p: Piece) {
    match p
    case Raw(c) => ' ' <= c && c != '"' && c != '\\'
    case Escape(c) => c in "\"\\/bfnrt"
    case Unicode(hex) => |hex| == 4 && forall i :: 0 <= i < 4 ==> IsHex(hex[i])
  }

  predicate LegalPieces(ps: seq<Piece>) {
    forall i :: 0 <= i < |ps| ==> LegalPiece(ps[i])
  }

  predicate Legal(v: Value) {
    match v
    case Number(lexeme) => IsNumber(lexeme)
    case Literal(ps) => LegalPieces(ps)
    case EmptyArray(gap) => AllLayout(gap)
    case Array(items) => LegalElements(items)
    case EmptyObject(gap) => AllLayout(gap)
    case Object(members) => LegalMembers(members)
    case _ => true
  }

  predicate LegalElement(e: Element) {
    AllLayout(e.before) && Legal(e.value) && AllLayout(e.after)
  }

  predicate LegalElements(es: Elements) {
    LegalElement(es.e) && (es.Item? ==> LegalElements(es.tail))
  }

  predicate LegalMember(m: Member) {
    AllLayout(m.before) && LegalPieces(m.key) && AllLayout(m.after) && LegalElement(m.e)
  }

  predicate LegalMembers(ms: Members) {
    LegalMember(ms.m) && (ms.NextMember? ==> LegalMembers(ms.tail))
  }

  // ---------- rendering ----------

  function RenderPiece(p: Piece): string {
    match p
    case Raw(c) => [c]
    case Escape(c) => ['\\', c]
    case Unicode(hex) => "\\u" + hex
  }

  /** The pieces up to and including the closing quotation mark. */
  function RenderPieces(ps: seq<Piece>): string {
    if ps == [] then "\"" else RenderPiece(ps[0]) + RenderPieces(ps[1..])
  }

  function Render(v: Value): string {
    match v
    case Null => "null"
    case True => "true"
    case False => "false"
    case Number(lexeme) => lexeme
    case Literal(ps) => "\"" + RenderPieces(ps)
    case EmptyArray(gap) => "[" + gap + "]"
    case Array(items) => "[" + RenderElements(items) + "]"
    case EmptyObject(gap) => "{" + gap + "}"
    case Object(members) => "{" + RenderMembers(members) + "}"
  }

  function RenderElement(e: Element): string {
    e.before + Render(e.value) + e.after
  }

  function RenderElements(es: Elements): string {
    match es
    case LastItem(e) => RenderElement(e)
    case Item(e, tail) => RenderElement(e) + "," + RenderElements(tail)
  }

  function RenderMember(m: Member): string {
    m.before + "\"" + RenderPieces(m.key) + m.after + ":" + RenderElement(m.e)
  }

  function RenderMembers(ms: Members): string {
    match ms
    case LastMember(m) => RenderMember(m)
    case NextMember(m, tail) => RenderMember(m) + "," + RenderMembers(tail)
  }

  // ---------- parsing ----------

  /** Consuming two parts of a text one after the other consumes both. */
  lemma Consume(s: string, a: string, t: string, c: string, u: string, b: string, rest: string)
    requires s == a + t && t == c + u && u == b + rest
    ensures s == a + c + b + rest
  {
  }

  lemma ConsumeOne(s: string, a: string, t: string, b: string, rest: string)
    requires s == a + t && t == b + rest
    ensures s == a + b + rest
  {
  }

  /** Cutting off a prefix. */
  lemma Cut(s: string, a: string)
    requires a <= s
    ensures s == a + s[|a|..]
  {
  }

  /** Cutting off one character. */
  lemma Head(s: string, mark: string)
    requires s != "" && |mark| == 1 && s[0] == mark[0]
    ensures s == mark + s[1..]
  {
  }

  datatype Parsed<+T> = Fail | Got(v: T, rest: string)

  /** The longest prefix of layout characters. */
  function LayoutRun(s: string): (run: string)
    ensures run <= s && AllLayout(run)
    ensures |run| < |s| ==> !IsLayout(s[|run|])
  {
    if s == "" || !IsLayout(s[0]) then "" else [s[0]] + LayoutRun(s[1..])
  }

  /** The longest prefix of characters that may occur in a number. */
  function NumberRun(s: string): (run: string)
    ensures run <= s
    ensures forall i :: 0 <= i < |run| ==> IsNumberChar(run[i])
    ensures |run| < |s| ==> !IsNumberChar(s[|run|])
  {
    if s == "" || !IsNumberChar(s[0]) then "" else [s[0]] + NumberRun(s[1..])
  }

  function ParsePiece(s: string): (r: Parsed<Piece>)
    ensures r.Got? ==> LegalPiece(r.v) && s == RenderPiece(r.v) + r.rest && |r.rest| < |s|
  {
    if s == "" || s[0] == '"' || s[0] < ' ' then Fail
    else if s[0] != '\\' then Got(Raw(s[0]), s[1..])
    else if |s| < 2 then Fail
    else if s[1] == 'u' then
      if |s| < 6 || !(IsHex(s[2]) && IsHex(s[3]) && IsHex(s[4]) && IsHex(s[5])) then Fail
      else Got(Unicode(s[2..6]), s[6..])
    else if s[1] in "\"\\/bfnrt" then Got(Escape(s[1]), s[2..])
    else Fail
  }

  function ParsePieces(s: string): (r: Parsed<seq<Piece>>)
    ensures r.Got? ==> LegalPieces(r.v) && s == RenderPieces(r.v) + r.rest && |r.rest| < |s|
    decreases |s|
  {
    if s != "" && s[0] == '"' then Got([], s[1..])
    else match ParsePiece(s)
      case Fail => Fail
      case Got(p, rest) =>
        match ParsePieces(rest)
        case Fail => Fail
        case Got(ps, rest') =>
          assert ([p] + ps)[1..] == ps;
          ConsumeOne(s, RenderPiece(p), rest, RenderPieces(ps), rest');
          Got([p] + ps, rest')
  }

  function ParseValue(s: string): (r: Parsed<Value>)
    ensures r.Got? ==> Legal(r.v) && s == Render(r.v) + r.rest && |r.rest| < |s|
    decreases |s|, 0
  {
    if s == "" then Fail
    else if s[0] == '"' then ParseLiteral(s[1..])
    else if s[0] == '[' then ParseArray(s[1..])
    else if s[0] == '{' then ParseObject(s[1..])
    else ParseScalar(s)
  }

  function ParseScalar(s: string): (r: Parsed<Value>)
    ensures r.Got? ==> Legal(r.v) && s == Render(r.v) + r.rest && |r.rest| < |s|
  {
    if "null" <= s then Cut(s, "null"); Got(Null, s[4..])
    else if "true" <= s then Cut(s, "true"); Got(True, s[4..])
    else if "false" <= s then Cut(s, "false"); Got(False, s[5..])
    else
      var lexeme := NumberRun(s);
      Cut(s, lexeme);
      if IsNumber(lexeme) then Got(Number(lexeme), s[|lexeme|..]) else Fail
  }

  /** What follows an opening quotation mark. */
  function ParseLiteral(s: string): (r: Parsed<Value>)
    ensures r.Got? ==> Legal(r.v) && "\"" + s == Render(r.v) + r.rest && |r.rest| <= |s|
  {
    match ParsePieces(s)
    case Fail => Fail
    case Got(ps, rest) => Got(Literal(ps), rest)
  }

  /** What follows an opening bracket. */
  function ParseArray(s: string): (r: Parsed<Value>)
    ensures r.Got? ==> Legal(r.v) && "[" + s == Render(r.v) + r.rest && |r.rest| <= |s|
    decreases |s|, 3
  {
    var gap := LayoutRun(s);
    var t := s[|gap|..];
    if t != "" && t[0] == ']' then
      Cut(s, gap); Head(t, "]");
      Consume("[" + s, "[", s, gap, t, "]", t[1..]);
      Got(EmptyArray(gap), t[1..])
    else
      match ParseElements(s)
      case Fail => Fail
      case Got(items, rest) =>
        if rest != "" && rest[0] == ']' then
          Head(rest, "]");
          Consume("[" + s, "[", s, RenderElements(items), rest, "]", rest[1..]);
          Got(Array(items), rest[1..])
        else Fail
  }

  /** What follows an opening brace. */
  function ParseObject(s: string): (r: Parsed<Value>)
    ensures r.Got? ==> Legal(r.v) && "{" + s == Render(r.v) + r.rest && |r.rest| <= |s|
    decreases |s|, 4
  {
    var gap := LayoutRun(s);
    var t := s[|gap|..];
    if t != "" && t[0] == '}' then
      Cut(s, gap); Head(t, "}");
      Consume("{" + s, "{", s, gap, t, "}", t[1..]);
      Got(EmptyObject(gap), t[1..])
    else
      match ParseMembers(s)
      case Fail => Fail
      case Got(members, rest) =>
        if rest != "" && rest[0] == '}' then
          Head(rest, "}");
          Consume("{" + s, "{", s, RenderMembers(members), rest, "}", rest[1..]);
          Got(Object(members), rest[1..])
        else Fail
  }

  function ParseElement(s: string): (r: Parsed<Element>)
    ensures r.Got? ==> LegalElement(r.v) && s == RenderElement(r.v) + r.rest && |r.rest| < |s|
    decreases |s|, 1
  {
    var before := LayoutRun(s);
    match ParseValue(s[|before|..])
    case Fail => Fail
    case Got(v, t) =>
      var after := LayoutRun(t);
      Cut(s, before); Cut(t, after);
      Consume(s, before, s[|before|..], Render(v), t, after, t[|after|..]);
      Got(Element(before, v, after), t[|after|..])
  }

  function ParseElements(s: string): (r: Parsed<Elements>)
    ensures r.Got? ==> LegalElements(r.v) && s == RenderElements(r.v) + r.rest && |r.rest| < |s|
    decreases |s|, 2
  {
    match ParseElement(s)
    case Fail => Fail
    case Got(e, rest) =>
      if rest != "" && rest[0] == ',' then
        Head(rest, ",");
        match ParseElements(rest[1..])
        case Fail => Fail
        case Got(tail, rest') =>
          Consume(s, RenderElement(e), rest, ",", rest[1..], RenderElements(tail), rest');
          Got(Item(e, tail), rest')
      else Got(LastItem(e), rest)
  }

  /** A member's key with the layout around it, up to but without the colon. */
  function ParseKey(s: string): (r: Parsed<(string, seq<Piece>, string)>)
    ensures r.Got? ==>
      && var (before, key, after) := r.v;
      && AllLayout(before) && LegalPieces(key) && AllLayout(after)
      && s == before + "\"" + RenderPieces(key) + after + r.rest && |r.rest| < |s|
  {
    var before := LayoutRun(s);
    var t := s[|before|..];
    if t == "" || t[0] != '"' then Fail
    else match ParsePieces(t[1..])
      case Fail => Fail
      case Got(key, u) =>
        var after := LayoutRun(u);
        Cut(s, before); Head(t, "\""); Cut(u, after);
        Consume(s, before, t, "\"", t[1..], RenderPieces(key), u);
        ConsumeOne(s, before + "\"" + RenderPieces(key), u, after, u[|after|..]);
        Got((before, key, after), u[|after|..])
  }

  function ParseMember(s: string): (r: Parsed<Member>)
    ensures r.Got? ==> LegalMember(r.v) && s == RenderMember(r.v) + r.rest && |r.rest| < |s|
    decreases |s|, 2
  {
    match ParseKey(s)
    case Fail => Fail
    case Got((before, key, after), t) =>
      if t == "" || t[0] != ':' then Fail
      else
        Head(t, ":");
        match ParseElement(t[1..])
        case Fail => Fail
        case Got(e, rest) =>
          Consume(s, before + "\"" + RenderPieces(key) + after, t, ":", t[1..], RenderElement(e), rest);
          Got(Member(before, key, after, e), rest)
  }

  function ParseMembers(s: string): (r: Parsed<Members>)
    ensures r.Got? ==> LegalMembers(r.v) && s == RenderMembers(r.v) + r.rest && |r.rest| < |s|
    decreases |s|, 3
  {
    match ParseMember(s)
    case Fail => Fail
    case Got(m, rest) =>
      if rest != "" && rest[0] == ',' then
        Head(rest, ",");
        match ParseMembers(rest[1..])
        case Fail => Fail
        case Got(tail, rest') =>
          Consume(s, RenderMember(m), rest, ",", rest[1..], RenderMembers(tail), rest');
          Got(NextMember(m, tail), rest')
      else Got(LastMember(m), rest)
  }

  /** A whole JSON text: one value between layout, and nothing after it. */
  function ParseText(s: string): (r: Parsed<Element>)
    ensures r.Got? ==> LegalElement(r.v) && s == RenderElement(r.v)
  {
    match ParseElement(s)
    case Fail => Fail
    case Got(e, rest) => if rest == "" then Got(e, "") else Fail
  }

  // ---------- what a text means: the tree without its layout ----------

  datatype Doc =
    | JNull
    | JBool(b: bool)
    | JNumber(lexeme: string)
    | JString(pieces: seq<Piece>)
    | JArray(items: seq<Doc>)
    | JObject(members: seq<Field>)

  datatype Field = Field(key: seq<Piece>, value: Doc)

  function Meaning(v: Value): Doc {
    match v
    case Null => JNull
    case True => JBool(true)
    case False => JBool(false)
    case Number(lexeme) => JNumber(lexeme)
    case Literal(ps) => JString(ps)
    case EmptyArray(_) => JArray([])
    case Array(items) => JArray(Meanings(items))
    case EmptyObject(_) => JObject([])
    case Object(members) => JObject(FieldsOf(members))
  }

  function Meanings(es: Elements): seq<Doc> {
    match es
    case LastItem(e) => [Meaning(e.value)]
    case Item(e, tail) => [Meaning(e.value)] + Meanings(tail)
  }

  function FieldsOf(ms: Members): seq<Field> {
    match ms
    case LastMember(m) => [Field(m.key, Meaning(m.e.value))]
    case NextMember(m, tail) => [Field(m.key, Meaning(m.e.value))] + FieldsOf(tail)
  }
}
