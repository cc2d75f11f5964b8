/**
  The parser is the exact inverse of rendering: every legal syntax tree is
  parsed back from its text, whatever its layout.
*/
module JsonExact {
  import opened Json

  /** A text that cannot prolong a number. */
  predicate EndsNumber(rest: string) {
    rest == "" || !IsNumberChar(rest[0])
  }

  /** A text that can prolong neither a number nor layout. */
  predicate EndsElement(rest: string) {
    rest == "" || (!IsNumberChar(rest[0]) && !IsLayout(rest[0]))
  }

  lemma {:induction false} LayoutRunExact(w: string, rest: string)
    requires AllLayout(w)
    requires rest == "" || !IsLayout(rest[0])
    ensures LayoutRun(w + rest) == w
    ensures (w + rest)[|w|..] == rest
  {
    if w == "" {
      assert w + rest == rest;
    } else {
      assert (w + rest)[1..] == w[1..] + rest;
      LayoutRunExact(w[1..], rest);
    }
  }

  lemma {:induction false} NumberRunExact(lexeme: string, rest: string)
    requires forall i :: 0 <= i < |lexeme| ==> IsNumberChar(lexeme[i])
    requires EndsNumber(rest)
    ensures NumberRun(lexeme + rest) == lexeme
  {
    if lexeme == "" {
      assert lexeme + rest == rest;
    } else {
      assert (lexeme + rest)[1..] == lexeme[1..] + rest;
      NumberRunExact(lexeme[1..], rest);
    }
  }

  lemma ExponentChars(s: string)
    requires IsExponent(s)
    ensures forall i :: 0 <= i < |s| ==> IsNumberChar(s[i])
  {
    if s != "" {
      var n := if |s| > 1 && (s[1] == '+' || s[1] == '-') then 2 else 1;
      assert forall i :: n <= i < |s| ==> s[i] == s[n..][i - n];
    }
  }

  /** All characters of two parts are number characters. */
  lemma BothChars(s: string, n: nat)
    requires n <= |s|
    requires forall i :: 0 <= i < n ==> IsNumberChar(s[i])
    requires forall i :: 0 <= i < |s[n..]| ==> IsNumberChar(s[n..][i])
    ensures forall i :: 0 <= i < |s| ==> IsNumberChar(s[i])
  {
    forall i | n <= i < |s| ensures IsNumberChar(s[i]) {
      assert s[i] == s[n..][i - n];
    }
  }

  lemma DigitChars(s: string, k: nat)
    requires k <= |s|
    ensures forall i :: k <= i < k + |DigitRun(s[k..])| ==> IsDigit(s[i])
  {
    forall i | k <= i < k + |DigitRun(s[k..])| ensures IsDigit(s[i]) {
      assert s[i] == s[k..][i - k] == DigitRun(s[k..])[i - k];
    }
  }

  lemma FractionChars(s: string)
    requires IsFraction(s)
    ensures forall i :: 0 <= i < |s| ==> IsNumberChar(s[i])
  {
    if s != "" && s[0] == '.' {
      var n := 1 + |DigitRun(s[1..])|;
      DigitChars(s, 1);
      ExponentChars(s[n..]);
      BothChars(s, n);
    } else {
      ExponentChars(s);
    }
  }

  lemma UnsignedChars(s: string)
    requires IsUnsigned(s)
    ensures s != "" && IsDigit(s[0])
    ensures forall i :: 0 <= i < |s| ==> IsNumberChar(s[i])
  {
    var n := |DigitRun(s)|;
    assert s[0..] == s;
    DigitChars(s, 0);
    FractionChars(s[n..]);
    BothChars(s, n);
  }

  /** A number starts with a digit or a minus sign and holds number characters only. */
  lemma NumberChars(s: string)
    requires IsNumber(s)
    ensures s != "" && (s[0] == '-' || IsDigit(s[0]))
    ensures forall i :: 0 <= i < |s| ==> IsNumberChar(s[i])
  {
    if s != "" && s[0] == '-' {
      UnsignedChars(s[1..]);
      assert forall i :: 1 <= i < |s| ==> s[i] == s[1..][i - 1];
    } else {
      UnsignedChars(s);
    }
  }

  lemma PieceExact(p: Piece, rest: string)
    requires LegalPiece(p)
    ensures ParsePiece(RenderPiece(p) + rest) == Got(p, rest)
    ensures RenderPiece(p) != "" && RenderPiece(p)[0] != '"'
  {
    var s := RenderPiece(p) + rest;
    match p
    case Raw(c) =>
      assert s[1..] == rest;
    case Escape(c) =>
      assert s[2..] == rest;
    case Unicode(hex) =>
      assert s[2..6] == hex && s[6..] == rest;
      assert s[2] == hex[0] && s[3] == hex[1] && s[4] == hex[2] && s[5] == hex[3];
  }

  lemma {:induction false} PiecesExact(ps: seq<Piece>, rest: string)
    requires LegalPieces(ps)
    ensures ParsePieces(RenderPieces(ps) + rest) == Got(ps, rest)
    decreases |ps|
  {
    if ps == [] {
      assert ("\"" + rest)[1..] == rest;
    } else {
      var tail := RenderPieces(ps[1..]) + rest;
      assert RenderPieces(ps) + rest == RenderPiece(ps[0]) + tail;
      PieceExact(ps[0], tail);
      PiecesExact(ps[1..], rest);
      assert [ps[0]] + ps[1..] == ps;
    }
  }

  /** A value's text starts with neither layout nor a closing or separating character. */
  lemma ValueStart(v: Value)
    requires Legal(v)
    ensures Render(v) != "" && !IsLayout(Render(v)[0])
    ensures Render(v)[0] !in "]},:"
    ensures Render(v)[0] == '{' <==> v.EmptyObject? || v.Object?
  {
    if v.Number? {
      NumberChars(v.lexeme);
    }
  }

  /** The first character decides which production is tried. */
  lemma Dispatch(c: char, s: string)
    ensures c == '"' ==> ParseValue([c] + s) == ParseLiteral(s)
    ensures c == '[' ==> ParseValue([c] + s) == ParseArray(s)
    ensures c == '{' ==> ParseValue([c] + s) == ParseObject(s)
    ensures c !in "\"[{" ==> ParseValue([c] + s) == ParseScalar([c] + s)
  {
    assert ([c] + s)[1..] == s;
  }

  lemma NumberExact(lexeme: string, rest: string)
    requires IsNumber(lexeme) && EndsNumber(rest)
    ensures ParseScalar(lexeme + rest) == Got(Number(lexeme), rest)
    ensures lexeme != "" && lexeme[0] !in "\"[{"
  {
    var s := lexeme + rest;
    NumberChars(lexeme);
    NumberRunExact(lexeme, rest);
    assert s[0] == lexeme[0] && s[|lexeme|..] == rest;
    assert s[0] !in "ntf" by { assert IsNumberChar(lexeme[0]); }
    NotWord(s);
  }

  lemma NotWord(s: string)
    requires s != "" && s[0] !in "ntf"
    ensures ParseScalar(s) ==
            var lexeme := NumberRun(s);
            if IsNumber(lexeme) then Got(Number(lexeme), s[|lexeme|..]) else Fail
  {
    assert s[0] != 'n' && s[0] != 't' && s[0] != 'f';
    OtherStart("null", s);
    OtherStart("true", s);
    OtherStart("false", s);
  }

  lemma OtherStart(word: string, s: string)
    requires word != "" && s != "" && s[0] != word[0]
    ensures !(word <= s)
  {
  }

  lemma WordExact(v: Value, rest: string)
    requires v.Null? || v.True? || v.False?
    ensures ParseScalar(Render(v) + rest) == Got(v, rest)
    ensures Render(v) != "" && Render(v)[0] !in "\"[{"
  {
    var s := Render(v) + rest;
    assert Render(v) <= s && s[|Render(v)|..] == rest;
    assert "null"[0] == 'n' && "true"[0] == 't' && "false"[0] == 'f';
    assert s[0] == Render(v)[0];
  }

  lemma EmptyExact(gap: string, rest: string)
    requires AllLayout(gap)
    ensures ParseArray(gap + "]" + rest) == Got(EmptyArray(gap), rest)
    ensures ParseObject(gap + "}" + rest) == Got(EmptyObject(gap), rest)
  {
    assert gap + "]" + rest == gap + ("]" + rest) && ("]" + rest)[1..] == rest;
    LayoutRunExact(gap, "]" + rest);
    assert gap + "}" + rest == gap + ("}" + rest) && ("}" + rest)[1..] == rest;
    LayoutRunExact(gap, "}" + rest);
  }

  lemma {:induction false} ArrayExact(items: Elements, rest: string)
    requires LegalElements(items)
    ensures ParseArray(RenderElements(items) + "]" + rest) == Got(Array(items), rest)
    decreases items, 3
  {
    var s := RenderElements(items) + "]" + rest;
    assert s == RenderElements(items) + ("]" + rest) && ("]" + rest)[1..] == rest;
    ElementsExact(items, "]" + rest);
    ElementsStart(items, "]" + rest);
  }

  lemma {:induction false} ObjectExact(members: Members, rest: string)
    requires LegalMembers(members)
    ensures ParseObject(RenderMembers(members) + "}" + rest) == Got(Object(members), rest)
    decreases members, 3
  {
    var s := RenderMembers(members) + "}" + rest;
    assert s == RenderMembers(members) + ("}" + rest) && ("}" + rest)[1..] == rest;
    MembersExact(members, "}" + rest);
    MembersStart(members, "}" + rest);
  }

  lemma {:induction false} ValueExact(v: Value, rest: string)
    requires Legal(v) && EndsNumber(rest)
    ensures ParseValue(Render(v) + rest) == Got(v, rest)
    decreases v, 0
  {
    var s := Render(v) + rest;
    match v
    case Literal(ps) =>
      LiteralExact(ps, rest);
    case EmptyArray(gap) =>
      EmptyExact(gap, rest);
      Dispatch('[', gap + "]" + rest);
      assert s == ['['] + (gap + "]" + rest);
    case EmptyObject(gap) =>
      EmptyExact(gap, rest);
      Dispatch('{', gap + "}" + rest);
      assert s == ['{'] + (gap + "}" + rest);
    case Array(items) =>
      ArrayExact(items, rest);
      Dispatch('[', RenderElements(items) + "]" + rest);
      assert s == ['['] + (RenderElements(items) + "]" + rest);
    case Object(members) =>
      ObjectExact(members, rest);
      Dispatch('{', RenderMembers(members) + "}" + rest);
      assert s == ['{'] + (RenderMembers(members) + "}" + rest);
    case Number(lexeme) =>
      NumberExact(lexeme, rest);
      Dispatch(s[0], s[1..]);
      assert s == [s[0]] + s[1..];
    case _ =>
      WordExact(v, rest);
      Dispatch(s[0], s[1..]);
      assert s == [s[0]] + s[1..];
  }

  lemma LiteralExact(ps: seq<Piece>, rest: string)
    requires LegalPieces(ps)
    ensures ParseValue("\"" + RenderPieces(ps) + rest) == Got(Literal(ps), rest)
  {
    PiecesExact(ps, rest);
    Dispatch('"', RenderPieces(ps) + rest);
    assert "\"" + RenderPieces(ps) + rest == ['"'] + (RenderPieces(ps) + rest);
  }

  lemma ElementStart(e: Element, rest: string)
    requires LegalElement(e)
    ensures LayoutRun(RenderElement(e) + rest) == e.before
    ensures (RenderElement(e) + rest)[|e.before|..] == Render(e.value) + e.after + rest
    ensures Render(e.value) != "" && (Render(e.value) + e.after + rest)[0] == Render(e.value)[0]
  {
    ValueStart(e.value);
    var t := Render(e.value) + e.after + rest;
    assert RenderElement(e) + rest == e.before + t;
    LayoutRunExact(e.before, t);
  }

  lemma ElementsStart(es: Elements, rest: string)
    requires LegalElements(es)
    ensures var s := RenderElements(es) + rest;
            var t := s[|LayoutRun(s)|..];
            t != "" && t[0] != ']'
  {
    ValueStart(es.e.value);
    if es.Item? {
      var rest' := "," + RenderElements(es.tail) + rest;
      assert RenderElements(es) + rest == RenderElement(es.e) + rest';
      ElementStart(es.e, rest');
    } else {
      ElementStart(es.e, rest);
    }
  }

  lemma Then(a: string, b: string, c: string, d: string)
    ensures (a + b + c) + d == a + (b + c + d)
    ensures (a + b + c) + d == a + (b + (c + d))
  {
  }

  lemma MembersStart(ms: Members, rest: string)
    requires LegalMembers(ms)
    ensures var s := RenderMembers(ms) + rest;
            var t := s[|LayoutRun(s)|..];
            t != "" && t[0] != '}'
  {
    var m := ms.m;
    if ms.NextMember? {
      var tail := RenderMembers(ms.tail);
      assert RenderMembers(ms) + rest == RenderMember(m) + ("," + tail + rest) by {
        Then(RenderMember(m), ",", tail, rest);
      }
      MemberStart(m, "," + tail + rest);
    } else {
      MemberStart(m, rest);
    }
  }

  lemma MemberStart(m: Member, rest: string)
    requires LegalMember(m)
    ensures var s := RenderMember(m) + rest;
            var t := s[|LayoutRun(s)|..];
            t != "" && t[0] == '"'
  {
    var key, value := RenderPieces(m.key), RenderElement(m.e) + rest;
    var t := "\"" + (key + (m.after + (":" + value)));
    Regroup(m.before, "\"", key, m.after, ":", value);
    assert RenderMember(m) + rest == m.before + "\"" + key + m.after + ":" + value;
    LayoutRunExact(m.before, t);
  }

  lemma {:induction false} ElementExact(e: Element, rest: string)
    requires LegalElement(e) && EndsElement(rest)
    ensures ParseElement(RenderElement(e) + rest) == Got(e, rest)
    decreases e, 1
  {
    var text, tail := RenderElement(e) + rest, e.after + rest;
    assert LayoutRun(text) == e.before && text[|e.before|..] == Render(e.value) + tail by {
      ElementStart(e, rest);
      ConsumeOne(Render(e.value) + tail, Render(e.value), tail, e.after, rest);
    }
    assert EndsNumber(tail) by {
      assert tail != "" ==> tail[0] == if e.after != "" then e.after[0] else rest[0];
    }
    assert ParseValue(Render(e.value) + tail) == Got(e.value, tail) by {
      ValueExact(e.value, tail);
    }
    LayoutRunExact(e.after, rest);
  }

  lemma {:induction false} ElementsExact(es: Elements, rest: string)
    requires LegalElements(es) && EndsElement(rest)
    requires rest != "" ==> rest[0] != ','
    ensures ParseElements(RenderElements(es) + rest) == Got(es, rest)
    decreases es, 2
  {
    match es
    case LastItem(e) =>
      ElementExact(e, rest);
    case Item(e, tail) =>
      var next := RenderElements(tail) + rest;
      Then(RenderElement(e), ",", RenderElements(tail), rest);
      assert RenderElements(es) + rest == RenderElement(e) + ("," + next);
      ElementExact(e, "," + next);
      assert ("," + next)[1..] == next;
      ElementsExact(tail, rest);
  }

  lemma {:induction false} MemberExact(m: Member, rest: string)
    requires LegalMember(m) && EndsElement(rest)
    ensures ParseMember(RenderMember(m) + rest) == Got(m, rest)
    decreases m, 1
  {
    var value := RenderElement(m.e) + rest;
    var head := m.before + "\"" + RenderPieces(m.key) + m.after + ":";
    ElementExact(m.e, rest);
    KeyExact(m, value);
    MemberStep(head + value, m, ":" + value, rest);
    Associate(head, RenderElement(m.e), rest);
  }

  lemma Associate(a: string, b: string, c: string)
    ensures (a + b) + c == a + (b + c)
  {
  }

  lemma MemberStep(s: string, m: Member, t: string, rest: string)
    requires ParseKey(s) == Got((m.before, m.key, m.after), t)
    requires t != "" && t[0] == ':' && ParseElement(t[1..]) == Got(m.e, rest)
    ensures ParseMember(s) == Got(m, rest)
  {
  }

  lemma KeyExact(m: Member, value: string)
    requires LegalMember(m)
    ensures ParseKey(m.before + "\"" + RenderPieces(m.key) + m.after + ":" + value)
         == Got((m.before, m.key, m.after), ":" + value)
  {
    var u := m.after + (":" + value);
    var t := "\"" + (RenderPieces(m.key) + u);
    Regroup(m.before, "\"", RenderPieces(m.key), m.after, ":", value);
    LayoutRunExact(m.before, t);
    assert t[1..] == RenderPieces(m.key) + u;
    PiecesExact(m.key, u);
    LayoutRunExact(m.after, ":" + value);
  }

  lemma Regroup(a: string, b: string, c: string, d: string, e: string, f: string)
    ensures a + b + c + d + e + f == a + (b + (c + (d + (e + f))))
  {
    ConsumeOne(a + b + c + d + e + f, a + b + c + d, e + f, e, f);
    ConsumeOne(c + (d + (e + f)), c, d + (e + f), d, e + f);
    ConsumeOne(a + (b + (c + (d + (e + f)))), a, b + (c + (d + (e + f))), b, c + (d + (e + f)));
    Consume(a + (b + (c + (d + (e + f)))), a + b, c + (d + (e + f)), c, d + (e + f), d, e + f);
  }

  lemma {:induction false} MembersExact(ms: Members, rest: string)
    requires LegalMembers(ms) && EndsElement(rest)
    requires rest != "" ==> rest[0] != ','
    ensures ParseMembers(RenderMembers(ms) + rest) == Got(ms, rest)
    decreases ms, 2
  {
    match ms
    case LastMember(m) =>
      MemberExact(m, rest);
    case NextMember(m, tail) =>
      var next := RenderMembers(tail) + rest;
      Then(RenderMember(m), ",", RenderMembers(tail), rest);
      assert RenderMembers(ms) + rest == RenderMember(m) + ("," + next);
      MemberExact(m, "," + next);
      assert ("," + next)[1..] == next;
      MembersExact(tail, rest);
  }

  /** A text parses as a syntax tree if and only if it is that tree's rendering. */
  lemma ParseTextExact(s: string, e: Element)
    ensures ParseText(s) == Got(e, "") <==> LegalElement(e) && s == RenderElement(e)
  {
    if LegalElement(e) && s == RenderElement(e) {
      ElementExact(e, "");
      assert s + "" == s;
    }
  }

  /** The grammar is unambiguous: a text has at most one legal syntax tree. */
  lemma Unambiguous(d: Element, e: Element)
    requires LegalElement(d) && LegalElement(e)
    requires RenderElement(d) == RenderElement(e)
    ensures d == e
  {
    ParseTextExact(RenderElement(d), d);
    ParseTextExact(RenderElement(d), e);
  }

  // ---------- the grammar once more, as RFC 8259 gives it ----------

  /** The characters of sections 2 and 7 by their code points, and the words of section 3. */
  lemma Characters(c: char)
    ensures IsLayout(c) <==> c as int in {0x20, 0x09, 0x0A, 0x0D}
    ensures LegalPiece(Raw(c)) <==> c as int >= 0x20 && c as int != 0x22 && c as int != 0x5C
    ensures LegalPiece(Escape(c)) <==> c as int in {0x22, 0x5C, 0x2F, 0x62, 0x66, 0x6E, 0x72, 0x74}
    ensures IsHex(c) <==> 0x30 <= c as int <= 0x39 || 0x41 <= c as int <= 0x46 || 0x61 <= c as int <= 0x66
    ensures Render(Null) == "null" && Render(True) == "true" && Render(False) == "false"
  {
  }

  predicate Digits(s: string) {
    s != "" && forall i :: 0 <= i < |s| ==> IsDigit(s[i])
  }

  /** `0`, or digits that do not begin with it. */
  predicate IsInt(s: string) {
    s == "0" || (Digits(s) && s[0] != '0')
  }

  predicate IsFrac(s: string) {
    s == "" || (s[0] == '.' && Digits(s[1..]))
  }

  predicate IsExp(s: string) {
    s == "" ||
    ((s[0] == 'e' || s[0] == 'E') && (Digits(s[1..]) || (|s| > 1 && (s[1] == '+' || s[1] == '-') && Digits(s[2..]))))
  }

  /** A number is an integer part with an optional minus sign, an optional fraction and an optional exponent. */
  predicate IsParts(s: string, minus: string, int': string, frac: string, exp: string) {
    s == minus + int' + frac + exp && (minus == "" || minus == "-") && IsInt(int') && IsFrac(frac) && IsExp(exp)
  }

  lemma {:induction false} DigitRunOf(s: string, rest: string)
    requires forall i :: 0 <= i < |s| ==> IsDigit(s[i])
    requires rest == "" || !IsDigit(rest[0])
    ensures DigitRun(s + rest) == s && (s + rest)[|s|..] == rest
    decreases |s|
  {
    if s == "" {
      assert s + rest == rest;
    } else {
      assert (s + rest)[1..] == s[1..] + rest;
      DigitRunOf(s[1..], rest);
      assert [s[0]] + s[1..] == s;
    }
  }

  lemma ExponentExactly(s: string)
    ensures IsExponent(s) <==> IsExp(s)
  {
    if |s| > 0 && Digits(s[1..]) {
      DigitRunOf(s[1..], "");
      assert s[1..] + "" == s[1..];
    }
    if |s| > 1 && Digits(s[2..]) {
      DigitRunOf(s[2..], "");
      assert s[2..] + "" == s[2..];
    }
  }

  lemma FractionSplits(s: string) returns (frac: string, exp: string)
    requires IsFraction(s)
    ensures s == frac + exp && IsFrac(frac) && IsExp(exp)
  {
    if s != "" && s[0] == '.' {
      var digits := DigitRun(s[1..]);
      frac, exp := s[..1 + |digits|], s[1 + |digits|..];
      assert frac[1..] == digits && frac[0] == '.';
      ExponentExactly(exp);
    } else {
      frac, exp := "", s;
      ExponentExactly(s);
    }
  }

  lemma FractionJoins(frac: string, exp: string)
    requires IsFrac(frac) && IsExp(exp)
    ensures IsFraction(frac + exp)
  {
    var s := frac + exp;
    ExponentExactly(exp);
    if frac == "" {
      assert s == exp;
    } else {
      DigitRunOf(frac[1..], exp);
      assert s[1..] == frac[1..] + exp;
      assert s[1 + |frac[1..]|..] == exp;
    }
  }

  lemma UnsignedSplits(s: string) returns (int': string, frac: string, exp: string)
    requires IsUnsigned(s)
    ensures s == int' + frac + exp && IsInt(int') && IsFrac(frac) && IsExp(exp)
  {
    int' := DigitRun(s);
    var rest := s[|int'|..];
    assert IsInt(int') by { IntRun(s, int'); }
    frac, exp := FractionSplits(rest);
    assert s == int' + rest;
    FourParts("", int', frac, exp);
    assert "" + (int' + frac + exp) == int' + frac + exp && "" + (int' + (frac + exp)) == int' + (frac + exp);
  }

  lemma IntRun(s: string, digits: string)
    requires digits == DigitRun(s) && digits != "" && (s[0] == '0' ==> |digits| == 1)
    ensures IsInt(digits)
  {
    assert digits[0] == s[0];
    if |digits| == 1 {
      assert digits == [digits[0]];
    }
  }

  lemma RestStart(frac: string, exp: string)
    requires IsFrac(frac) && IsExp(exp)
    ensures frac + exp == "" || !IsDigit((frac + exp)[0])
  {
    if frac == "" {
      assert frac + exp == exp;
    }
  }

  lemma UnsignedJoins(int': string, rest: string)
    requires IsInt(int') && IsFraction(rest) && (rest == "" || !IsDigit(rest[0]))
    ensures IsUnsigned(int' + rest) && int' + rest != "" && (int' + rest)[0] != '-'
  {
    var s := int' + rest;
    assert DigitRun(s) == int' && s[|int'|..] == rest by { DigitRunOf(int', rest); }
    assert s[0] == int'[0];
    assert s[0] == '0' ==> |int'| == 1;
  }

  lemma NumberSplits(s: string) returns (minus: string, int': string, frac: string, exp: string)
    requires IsNumber(s)
    ensures IsParts(s, minus, int', frac, exp)
  {
    minus := if s != "" && s[0] == '-' then "-" else "";
    var rest := s[|minus|..];
    assert s == minus + rest;
    int', frac, exp := UnsignedSplits(rest);
    FourParts(minus, int', frac, exp);
  }

  lemma FourParts(a: string, b: string, c: string, d: string)
    ensures a + (b + c + d) == a + b + c + d == a + (b + (c + d))
  {
  }

  lemma NumberJoins(s: string, minus: string, int': string, frac: string, exp: string)
    requires IsParts(s, minus, int', frac, exp)
    ensures IsNumber(s)
  {
    var rest := int' + (frac + exp);
    FractionJoins(frac, exp);
    RestStart(frac, exp);
    UnsignedJoins(int', frac + exp);
    FourParts(minus, int', frac, exp);
    assert s == minus + rest && s[|minus|..] == rest;
    assert minus == "" ==> s == rest;
  }

  /** Numbers are exactly those of section 6. */
  lemma NumberExactly(s: string)
    ensures IsNumber(s) <==> exists minus, int', frac, exp :: IsParts(s, minus, int', frac, exp)
  {
    if IsNumber(s) {
      var minus, int', frac, exp := NumberSplits(s);
      assert IsParts(s, minus, int', frac, exp);
    }
    if minus, int', frac, exp :| IsParts(s, minus, int', frac, exp) {
      NumberJoins(s, minus, int', frac, exp);
    }
  }
}
