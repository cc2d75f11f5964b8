/**
  When the deletion of spaces hides an error.  A text whose stripped form is
  valid JSON is itself valid exactly if no space stands inside a word, a number
  or an escape; a scan of the text from left to right decides that.
*/
module Lexical {
  import opened Text
  import opened Json
  import opened JsonExact

  // ---------- the scan ----------

  /** A character of a word or a number: neither layout, nor structural, nor a quotation mark. */
  predicate IsTokenChar(c: char) {
    !IsLayout(c) && c !in "{}[],:\""
  }

  /** Where the scan is; `AfterToken` has seen spaces directly after a word or number. */
  datatype Mode = Between | InToken | AfterToken | InString | AfterBackslash | InHex(left: nat) | Broken

  function Move(m: Mode, c: char): Mode {
    match m
    case Between => Outside(c)
    case InToken => if c == ' ' then AfterToken else Outside(c)
    case AfterToken => if c == ' ' then AfterToken else if IsTokenChar(c) then Broken else Outside(c)
    case InString => if c == '"' then Between else if c == '\\' then AfterBackslash else InString
    case AfterBackslash => if c == ' ' then Broken else if c == 'u' then InHex(4) else InString
    case InHex(left) => if c == ' ' then Broken else if left <= 1 then InString else InHex(left - 1)
    case Broken => Broken
  }

  function Outside(c: char): Mode {
    if c == '"' then InString else if IsTokenChar(c) then InToken else Between
  }

  function Walk(m: Mode, s: string): Mode
    decreases |s|
  {
    if s == "" then m else Walk(Move(m, s[0]), s[1..])
  }

  /** No space stands inside a word, a number or an escape. */
  predicate Unbroken(s: string) {
    Walk(Between, s) != Broken
  }

  predicate IsOuter(m: Mode) {
    m == Between || m == InToken || m == AfterToken
  }

  lemma {:induction false} WalkConcat(m: Mode, a: string, b: string)
    ensures Walk(m, a + b) == Walk(Walk(m, a), b)
    decreases |a|
  {
    if a == "" {
      assert a + b == b;
    } else {
      assert (a + b)[1..] == a[1..] + b;
      WalkConcat(Move(m, a[0]), a[1..], b);
    }
  }

  lemma WalkConcat3(m: Mode, a: string, b: string, c: string)
    ensures Walk(m, a + b + c) == Walk(Walk(Walk(m, a), b), c)
  {
    WalkConcat(m, a + b, c);
    WalkConcat(m, a, b);
  }

  lemma WalkOne(m: Mode, c: char)
    ensures Walk(m, [c]) == Move(m, c)
  {
    assert [c][1..] == "";
  }

  lemma {:induction false} WalkBroken(s: string)
    ensures Walk(Broken, s) == Broken
  {
    if s != "" {
      WalkBroken(s[1..]);
    }
  }

  /** Of all modes outside strings, `Between` forbids least. */
  lemma {:induction false} WalkBetween(m: Mode, s: string)
    requires IsOuter(m) && Walk(m, s) != Broken
    ensures Unbroken(s)
    decreases |s|
  {
    if s != "" {
      if Move(m, s[0]) == AfterToken {
        WalkBetween(AfterToken, s[1..]);
      } else if Move(m, s[0]) == Broken {
        WalkBroken(s[1..]);
      }
    }
  }

  // ---------- a valid text is unbroken ----------

  lemma {:induction false} WalkLayout(m: Mode, w: string)
    requires IsOuter(m) && AllLayout(w)
    ensures IsOuter(Walk(m, w))
    ensures m == Between ==> Walk(m, w) == Between
    decreases |w|
  {
    if w != "" {
      WalkLayout(Move(m, w[0]), w[1..]);
    }
  }

  lemma {:induction false} WalkTokens(m: Mode, l: string)
    requires m == Between || m == InToken
    requires forall i :: 0 <= i < |l| ==> IsTokenChar(l[i])
    ensures Walk(m, l) == if l == "" then m else InToken
    decreases |l|
  {
    if l != "" {
      WalkTokens(InToken, l[1..]);
    }
  }

  lemma WalkPiece(p: Piece)
    requires LegalPiece(p)
    ensures Walk(InString, RenderPiece(p)) == InString
  {
    match p
    case Raw(c) => WalkOne(InString, c);
    case Escape(c) =>
      WalkConcat(InString, "\\", [c]);
      assert "\\" + [c] == RenderPiece(p);
      WalkOne(InString, '\\');
      WalkOne(AfterBackslash, c);
    case Unicode(hex) =>
      WalkConcat3(InString, "\\", "u", hex);
      assert "\\" + "u" + hex == RenderPiece(p);
      WalkOne(InString, '\\');
      WalkOne(AfterBackslash, 'u');
      WalkHex(4, hex);
  }

  lemma {:induction false} WalkHex(n: nat, hex: string)
    requires |hex| == n > 0 && forall i :: 0 <= i < n ==> hex[i] != ' '
    ensures Walk(InHex(n), hex) == InString
    decreases n
  {
    if n == 1 {
      assert hex == [hex[0]];
      WalkOne(InHex(1), hex[0]);
    } else {
      WalkHex(n - 1, hex[1..]);
    }
  }

  lemma {:induction false} WalkPieces(ps: seq<Piece>)
    requires LegalPieces(ps)
    ensures Walk(InString, RenderPieces(ps)) == Between
    decreases |ps|
  {
    if ps == [] {
      WalkOne(InString, '"');
    } else {
      WalkConcat(InString, RenderPiece(ps[0]), RenderPieces(ps[1..]));
      WalkPiece(ps[0]);
      WalkPieces(ps[1..]);
    }
  }

  lemma WalkWord(v: Value)
    requires Legal(v)
    requires v.Null? || v.True? || v.False? || v.Number?
    ensures Walk(Between, Render(v)) == InToken
  {
    var l := Render(v);
    if v.Number? {
      NumberChars(l);
    }
    forall i | 0 <= i < |l| ensures IsTokenChar(l[i]) {
      TokenChar(l[i]);
    }
    WalkTokens(Between, l);
  }

  lemma TokenChar(c: char)
    requires 'a' <= c <= 'z' || IsNumberChar(c)
    ensures IsTokenChar(c)
  {
  }

  lemma WalkBracketed(open: char, content: string, close: char)
    requires open == '[' || open == '{'
    requires close == ']' || close == '}'
    requires IsOuter(Walk(Between, content))
    ensures Walk(Between, [open] + content + [close]) == Between
  {
    WalkConcat3(Between, [open], content, [close]);
    WalkOne(Between, open);
    WalkOne(Walk(Between, content), close);
  }

  lemma {:induction false} WalkValue(v: Value)
    requires Legal(v)
    ensures IsOuter(Walk(Between, Render(v)))
    decreases v, 0
  {
    match v
    case Literal(ps) =>
      WalkConcat(Between, "\"", RenderPieces(ps));
      WalkOne(Between, '"');
      WalkPieces(ps);
    case EmptyArray(gap) =>
      WalkLayout(Between, gap);
      WalkBracketed('[', gap, ']');
    case EmptyObject(gap) =>
      WalkLayout(Between, gap);
      WalkBracketed('{', gap, '}');
    case Array(items) =>
      WalkElements(items);
      WalkBracketed('[', RenderElements(items), ']');
    case Object(members) =>
      WalkMembers(members);
      WalkBracketed('{', RenderMembers(members), '}');
    case _ =>
      WalkWord(v);
  }

  lemma {:induction false} WalkElement(e: Element)
    requires LegalElement(e)
    ensures IsOuter(Walk(Between, RenderElement(e)))
    decreases e, 1
  {
    WalkConcat3(Between, e.before, Render(e.value), e.after);
    WalkLayout(Between, e.before);
    WalkValue(e.value);
    WalkLayout(Walk(Between, Render(e.value)), e.after);
  }

  lemma {:induction false} WalkElements(es: Elements)
    requires LegalElements(es)
    ensures IsOuter(Walk(Between, RenderElements(es)))
    decreases es, 2
  {
    WalkElement(es.e);
    if es.Item? {
      WalkConcat3(Between, RenderElement(es.e), ",", RenderElements(es.tail));
      WalkOne(Walk(Between, RenderElement(es.e)), ',');
      WalkElements(es.tail);
    }
  }

  lemma {:induction false} WalkMember(m: Member)
    requires LegalMember(m)
    ensures IsOuter(Walk(Between, RenderMember(m)))
    decreases m, 1
  {
    var key := RenderPieces(m.key);
    WalkConcat3(Between, m.before, "\"", key);
    WalkConcat3(Between, m.before + "\"" + key, m.after, ":");
    WalkConcat(Between, m.before + "\"" + key + m.after + ":", RenderElement(m.e));
    WalkLayout(Between, m.before);
    WalkOne(Between, '"');
    WalkPieces(m.key);
    WalkLayout(Between, m.after);
    WalkOne(Between, ':');
    WalkElement(m.e);
  }

  lemma {:induction false} WalkMembers(ms: Members)
    requires LegalMembers(ms)
    ensures IsOuter(Walk(Between, RenderMembers(ms)))
    decreases ms, 2
  {
    WalkMember(ms.m);
    if ms.NextMember? {
      WalkConcat3(Between, RenderMember(ms.m), ",", RenderMembers(ms.tail));
      WalkOne(Walk(Between, RenderMember(ms.m)), ',');
      WalkMembers(ms.tail);
    }
  }

  lemma ValidIsUnbroken(s: string)
    requires ParseText(s).Got?
    ensures Unbroken(s)
  {
    WalkElement(ParseText(s).v);
  }

  // ---------- an unbroken text parses where its stripped form does ----------

  lemma StripHead(s: string)
    requires s != "" && s[0] != ' '
    ensures StripSpaces(s) == [s[0]] + StripSpaces(s[1..])
    ensures StripSpaces(s)[1..] == StripSpaces(s[1..])
  {
    assert ([s[0]] + StripSpaces(s[1..]))[1..] == StripSpaces(s[1..]);
  }

  /** After a token and spaces, the next character left is not a token's. */
  lemma {:induction false} AfterSpaces(s: string)
    requires Walk(AfterToken, s) != Broken && StripSpaces(s) != ""
    ensures !IsTokenChar(StripSpaces(s)[0])
    decreases |s|
  {
    if s[0] == ' ' {
      AfterSpaces(s[1..]);
    } else if IsTokenChar(s[0]) {
      WalkBroken(s[1..]);
    }
  }

  /** What an unbroken text and its stripped form agree on after reading a part: the rest, which is unbroken too. */
  predicate Follows(rest: string, stripped: string) {
    StripSpaces(rest) == stripped && Unbroken(rest)
  }

  /** A word or number of the stripped text stands in the unbroken text without spaces. */
  lemma {:induction false} TokenKept(m: Mode, s: string, l: string)
    requires m == Between || m == InToken
    requires Walk(m, s) != Broken && s != "" && s[0] != ' '
    requires l != "" && (forall i :: 0 <= i < |l| ==> IsTokenChar(l[i])) && l <= StripSpaces(s)
    ensures l <= s && Follows(s[|l|..], StripSpaces(s)[|l|..])
    decreases |l|
  {
    StripHead(s);
    var rest := s[1..];
    assert l[0] == s[0] && Walk(InToken, rest) != Broken;
    if |l| == 1 {
      WalkBetween(InToken, rest);
    } else {
      assert l[1..] <= StripSpaces(rest);
      assert StripSpaces(rest)[0] == l[1];
      if rest[0] == ' ' {
        AfterSpaces(rest[1..]);
      }
      TokenKept(InToken, rest, l[1..]);
      assert l == [l[0]] + l[1..] && s == [s[0]] + rest;
      assert s[|l|..] == rest[|l| - 1..];
      assert StripSpaces(s)[|l|..] == StripSpaces(rest)[|l| - 1..];
    }
  }

  lemma NoLayoutKept(m: Mode, s: string)
    requires IsOuter(m) && Walk(m, s) != Broken && (s == "" || !IsLayout(s[0]))
    ensures LayoutRun(s) == "" && LayoutRun(StripSpaces(s)) == ""
    ensures s[0..] == s && StripSpaces(s)[0..] == StripSpaces(s)
    ensures Follows(s, StripSpaces(s))
  {
    if s != "" {
      StripHead(s);
    }
    WalkBetween(m, s);
  }

  lemma LayoutStep(c: char, t: string)
    requires IsLayout(c)
    ensures LayoutRun([c] + t) == [c] + LayoutRun(t)
    ensures ([c] + t)[1 + |LayoutRun(t)|..] == t[|LayoutRun(t)|..]
  {
    assert ([c] + t)[1..] == t;
  }

  /** Layout is stripped to layout, and what follows it is not a space. */
  lemma {:induction false} LayoutKept(m: Mode, s: string)
    requires IsOuter(m) && Walk(m, s) != Broken
    ensures var w, t := LayoutRun(s), StripSpaces(s);
            && LayoutRun(t) == StripSpaces(w)
            && Follows(s[|w|..], t[|LayoutRun(t)|..])
            && (s[|w|..] != "" ==> s[|w|..][0] != ' ')
    decreases |s|
  {
    if s == "" || !IsLayout(s[0]) {
      NoLayoutKept(m, s);
    } else {
      var w := LayoutRun(s[1..]);
      LayoutKept(Move(m, s[0]), s[1..]);
      assert LayoutRun(s) == [s[0]] + w && s[1 + |w|..] == s[1..][|w|..];
      assert ([s[0]] + w)[1..] == w;
      if s[0] != ' ' {
        StripHead(s);
        LayoutStep(s[0], StripSpaces(s[1..]));
      }
    }
  }

  lemma {:induction false} HexKept(n: nat, s: string)
    requires n > 0 && Walk(InHex(n), s) != Broken && |StripSpaces(s)| >= n
    ensures |s| >= n && StripSpaces(s)[..n] == s[..n]
    ensures StripSpaces(s[n..]) == StripSpaces(s)[n..] && Walk(InString, s[n..]) != Broken
    decreases n
  {
    if s[0] == ' ' {
      WalkBroken(s[1..]);
    }
    StripHead(s);
    var rest := s[1..];
    if n > 1 {
      HexKept(n - 1, rest);
      assert s[..n] == [s[0]] + rest[..n - 1] && s[n..] == rest[n - 1..];
      assert StripSpaces(s)[..n] == [s[0]] + StripSpaces(rest)[..n - 1];
      assert StripSpaces(s)[n..] == StripSpaces(rest)[n - 1..];
    } else {
      assert s[..1] == [s[0]] && StripSpaces(s)[..1] == [s[0]];
    }
  }

  /** One piece of a literal that does not start with a space is the same before and after. */
  lemma PieceKept(s: string)
    requires Walk(InString, s) != Broken && s != "" && s[0] != ' ' && s[0] != '"'
    requires ParsePiece(StripSpaces(s)).Got?
    ensures ParsePiece(s).Got? && StripSpaces(ParsePiece(s).rest) == ParsePiece(StripSpaces(s)).rest
    ensures Walk(InString, ParsePiece(s).rest) != Broken
  {
    StripHead(s);
    if s[0] == '\\' {
      EscapeKept(s);
    }
  }

  lemma EscapeKept(s: string)
    requires Walk(InString, s) != Broken && s != "" && s[0] == '\\'
    requires ParsePiece(StripSpaces(s)).Got?
    ensures ParsePiece(s).Got? && StripSpaces(ParsePiece(s).rest) == ParsePiece(StripSpaces(s)).rest
    ensures Walk(InString, ParsePiece(s).rest) != Broken
  {
    var t, rest := StripSpaces(s), s[1..];
    StripHead(s);
    assert |t| >= 2 && t[1] == StripSpaces(rest)[0];
    assert rest[0] != ' ' by {
      if rest[0] == ' ' {
        WalkBroken(rest[1..]);
      }
    }
    StripHead(rest);
    var tail := rest[1..];
    assert t[1] == s[1] && t[2..] == StripSpaces(tail) && s[2..] == tail;
    if s[1] == 'u' {
      assert |t| >= 6;
      HexKept(4, tail);
      assert s[2..6] == tail[..4] && t[2..6] == t[2..][..4];
      assert s[6..] == tail[4..] && t[6..] == t[2..][4..];
      UnicodePiece(s);
      UnicodePiece(t);
    }
  }

  lemma UnicodePiece(s: string)
    requires |s| >= 6 && s[0] == '\\' && s[1] == 'u'
    ensures ParsePiece(s) == if forall i :: 0 <= i < 4 ==> IsHex(s[2..6][i]) then Got(Unicode(s[2..6]), s[6..]) else Fail
  {
    var hex := s[2..6];
    assert hex[0] == s[2] && hex[1] == s[3] && hex[2] == s[4] && hex[3] == s[5];
  }

  /** A literal parses where its stripped form does; its raw spaces are pieces of their own. */
  lemma {:induction false} PiecesKept(s: string)
    requires Walk(InString, s) != Broken && ParsePieces(StripSpaces(s)).Got?
    ensures ParsePieces(s).Got? && Follows(ParsePieces(s).rest, ParsePieces(StripSpaces(s)).rest)
    decreases |s|
  {
    if s[0] == ' ' {
      assert ParsePiece(s) == Got(Raw(' '), s[1..]);
      PiecesKept(s[1..]);
    } else if s[0] == '"' {
      StripHead(s);
    } else {
      StripHead(s);
      PieceKept(s);
      PiecesKept(ParsePiece(s).rest);
    }
  }

  lemma ScalarKept(s: string)
    requires Unbroken(s) && s != "" && s[0] != ' ' && ParseScalar(StripSpaces(s)).Got?
    ensures ParseScalar(s).Got? && Follows(ParseScalar(s).rest, ParseScalar(StripSpaces(s)).rest)
  {
    var t := StripSpaces(s);
    if "null" <= t {
      WordKept(s, Null);
    } else if "true" <= t {
      WordKept(s, True);
    } else if "false" <= t {
      WordKept(s, False);
    } else {
      assert IsNumber(NumberRun(t));
      NumberKept(s);
    }
  }

  lemma WordKept(s: string, v: Value)
    requires v.Null? || v.True? || v.False?
    requires Unbroken(s) && s != "" && s[0] != ' ' && Render(v) <= StripSpaces(s)
    ensures ParseScalar(s).Got? && Follows(ParseScalar(s).rest, ParseScalar(StripSpaces(s)).rest)
  {
    var word, t := Render(v), StripSpaces(s);
    TokenKept(Between, s, word);
    Cut(s, word);
    Cut(t, word);
    WordExact(v, s[|word|..]);
    WordExact(v, t[|word|..]);
  }

  lemma NumberKept(s: string)
    requires Unbroken(s) && s != "" && s[0] != ' ' && IsNumber(NumberRun(StripSpaces(s)))
    ensures ParseScalar(s).Got? && Follows(ParseScalar(s).rest, ParseScalar(StripSpaces(s)).rest)
  {
    var t := StripSpaces(s);
    var l := NumberRun(t);
    NumberTokens(l);
    TokenKept(Between, s, l);
    NumberSplit(t, l);
    RestEndsNumber(s[|l|..], t[|l|..]);
    NumberSplit(s, l);
  }

  lemma NumberTokens(l: string)
    requires IsNumber(l)
    ensures l != "" && forall i :: 0 <= i < |l| ==> IsTokenChar(l[i])
  {
    NumberChars(l);
  }

  lemma NumberSplit(s: string, l: string)
    requires IsNumber(l) && l <= s
    requires EndsNumber(s[|l|..]) || NumberRun(s) == l
    ensures ParseScalar(s) == Got(Number(l), s[|l|..]) && EndsNumber(s[|l|..])
  {
    var rest := s[|l|..];
    assert EndsNumber(rest) by {
      assert rest != "" ==> rest[0] == s[|l|];
    }
    Cut(s, l);
    NumberExact(l, rest);
  }

  lemma RestEndsNumber(rest: string, stripped: string)
    requires StripSpaces(rest) == stripped && EndsNumber(stripped)
    ensures EndsNumber(rest)
  {
    if rest != "" && rest[0] != ' ' {
      StripHead(rest);
    }
  }

  lemma {:induction false} ValueKept(s: string)
    requires Unbroken(s) && s != "" && s[0] != ' ' && ParseValue(StripSpaces(s)).Got?
    ensures ParseValue(s).Got? && Follows(ParseValue(s).rest, ParseValue(StripSpaces(s)).rest)
    decreases |s|, 0
  {
    var c, rest := s[0], s[1..];
    StripHead(s);
    Dispatch(c, rest);
    Dispatch(c, StripSpaces(rest));
    assert s == [c] + rest;
    if c == '"' {
      PiecesKept(rest);
    } else if c == '[' {
      ArrayKept(rest);
    } else if c == '{' {
      ObjectKept(rest);
    } else {
      ScalarKept(s);
    }
  }

  lemma {:induction false} ElementKept(s: string)
    requires Unbroken(s) && ParseElement(StripSpaces(s)).Got?
    ensures ParseElement(s).Got? && Follows(ParseElement(s).rest, ParseElement(StripSpaces(s)).rest)
    ensures ParseElement(s).rest != "" ==> ParseElement(s).rest[0] != ' '
    decreases |s|, 1
  {
    var t := s[|LayoutRun(s)|..];
    LayoutKept(Between, s);
    ValueKept(t);
    LayoutKept(Between, ParseValue(t).rest);
  }

  /** The rest of an element starts with the same character before and after. */
  lemma SameHead(rest: string, stripped: string)
    requires Follows(rest, stripped) && (rest != "" ==> rest[0] != ' ')
    ensures rest == "" <==> stripped == ""
    ensures rest != "" ==> stripped[0] == rest[0] && stripped[1..] == StripSpaces(rest[1..])
    ensures rest != "" && !IsTokenChar(rest[0]) && rest[0] != '"' ==> Unbroken(rest[1..])
  {
    if rest != "" {
      StripHead(rest);
    }
  }

  lemma {:induction false} ElementsKept(s: string)
    requires Unbroken(s) && ParseElements(StripSpaces(s)).Got?
    ensures ParseElements(s).Got? && Follows(ParseElements(s).rest, ParseElements(StripSpaces(s)).rest)
    ensures ParseElements(s).rest != "" ==> ParseElements(s).rest[0] != ' '
    decreases |s|, 2
  {
    ElementKept(s);
    var rest := ParseElement(s).rest;
    SameHead(rest, ParseElement(StripSpaces(s)).rest);
    if rest != "" && rest[0] == ',' {
      ElementsKept(rest[1..]);
    }
  }

  lemma {:induction false} ArrayKept(s: string)
    requires Unbroken(s) && ParseArray(StripSpaces(s)).Got?
    ensures ParseArray(s).Got? && Follows(ParseArray(s).rest, ParseArray(StripSpaces(s)).rest)
    decreases |s|, 3
  {
    LayoutKept(Between, s);
    var t, u := s[|LayoutRun(s)|..], StripSpaces(s)[|LayoutRun(StripSpaces(s))|..];
    SameHead(t, u);
    if t == "" || t[0] != ']' {
      ElementsKept(s);
      SameHead(ParseElements(s).rest, ParseElements(StripSpaces(s)).rest);
    }
  }

  lemma {:induction false} KeyKept(s: string)
    requires Unbroken(s) && ParseKey(StripSpaces(s)).Got?
    ensures ParseKey(s).Got? && Follows(ParseKey(s).rest, ParseKey(StripSpaces(s)).rest)
    ensures ParseKey(s).rest != "" ==> ParseKey(s).rest[0] != ' '
  {
    LayoutKept(Between, s);
    var t := s[|LayoutRun(s)|..];
    SameHead(t, StripSpaces(s)[|LayoutRun(StripSpaces(s))|..]);
    PiecesKept(t[1..]);
    LayoutKept(Between, ParsePieces(t[1..]).rest);
  }

  lemma {:induction false} MemberKept(s: string)
    requires Unbroken(s) && ParseMember(StripSpaces(s)).Got?
    ensures ParseMember(s).Got? && Follows(ParseMember(s).rest, ParseMember(StripSpaces(s)).rest)
    ensures ParseMember(s).rest != "" ==> ParseMember(s).rest[0] != ' '
    decreases |s|, 2
  {
    var stripped := StripSpaces(s);
    MemberParts(stripped);
    KeyKept(s);
    var t, u := ParseKey(s).rest, ParseKey(stripped).rest;
    SameHead(t, u);
    ElementKept(t[1..]);
    assert u[1..] == StripSpaces(t[1..]);
    MemberParts(s);
  }

  /** A member is a key, a colon and an element. */
  lemma MemberParts(s: string)
    ensures var k := ParseKey(s);
            && (ParseMember(s).Got? <==> k.Got? && k.rest != "" && k.rest[0] == ':' && ParseElement(k.rest[1..]).Got?)
            && (ParseMember(s).Got? ==> ParseMember(s).rest == ParseElement(k.rest[1..]).rest)
  {
  }

  lemma {:induction false} MembersKept(s: string)
    requires Unbroken(s) && ParseMembers(StripSpaces(s)).Got?
    ensures ParseMembers(s).Got? && Follows(ParseMembers(s).rest, ParseMembers(StripSpaces(s)).rest)
    ensures ParseMembers(s).rest != "" ==> ParseMembers(s).rest[0] != ' '
    decreases |s|, 3
  {
    MemberKept(s);
    var rest := ParseMember(s).rest;
    SameHead(rest, ParseMember(StripSpaces(s)).rest);
    if rest != "" && rest[0] == ',' {
      MembersKept(rest[1..]);
    }
  }

  lemma {:induction false} ObjectKept(s: string)
    requires Unbroken(s) && ParseObject(StripSpaces(s)).Got?
    ensures ParseObject(s).Got? && Follows(ParseObject(s).rest, ParseObject(StripSpaces(s)).rest)
    decreases |s|, 4
  {
    LayoutKept(Between, s);
    var t, u := s[|LayoutRun(s)|..], StripSpaces(s)[|LayoutRun(StripSpaces(s))|..];
    SameHead(t, u);
    if t == "" || t[0] != '}' {
      MembersKept(s);
      SameHead(ParseMembers(s).rest, ParseMembers(StripSpaces(s)).rest);
    }
  }

  /**
    A text that is valid without its spaces is valid with them if and only if
    none of them stands inside a word, a number or an escape.
  */
  lemma HiddenErrorsExactly(s: string)
    requires ParseText(StripSpaces(s)).Got?
    ensures ParseText(s).Got? <==> Unbroken(s)
  {
    if ParseText(s).Got? {
      ValidIsUnbroken(s);
    }
    if Unbroken(s) {
      ElementKept(s);
      SameHead(ParseElement(s).rest, ParseElement(StripSpaces(s)).rest);
    }
  }
}
