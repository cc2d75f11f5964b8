/**
  Decoding JSON string literals, and what the deletion of raw spaces does to
  the decoded text.  Escapes are decoded one by one, except that an escaped
  high surrogate directly followed by an escaped low one is a single character;
  a surrogate on its own decodes to U+FFFD.
*/
module Decoding {
  import opened Text
  import opened Json
  import opened Stripping

  function HexDigit(c: char): (d: nat)
    ensures d < 16
  {
    if '0' <= c <= '9' then c as int - '0' as int
    else if 'a' <= c <= 'f' then c as int - 'a' as int + 10
    else if 'A' <= c <= 'F' then c as int - 'A' as int + 10
    else 0
  }

  /** The UTF-16 code unit that a `\u` escape names. */
  function CodeUnit(p: Piece): (n: nat)
    ensures n < 0x1_0000
  {
    if p.Unicode? && |p.hex| == 4 then
      ((HexDigit(p.hex[0]) * 16 + HexDigit(p.hex[1])) * 16 + HexDigit(p.hex[2])) * 16 + HexDigit(p.hex[3])
    else 0
  }

  predicate IsHigh(p: Piece) {
    p.Unicode? && 0xD800 <= CodeUnit(p) < 0xDC00
  }

  predicate IsLow(p: Piece) {
    p.Unicode? && 0xDC00 <= CodeUnit(p) < 0xE000
  }

  function DecodePair(high: Piece, low: Piece): (c: char)
    requires IsHigh(high) && IsLow(low)
    ensures c as int >= 0x1_0000
  {
    (0x1_0000 + (CodeUnit(high) - 0xD800) * 0x400 + (CodeUnit(low) - 0xDC00)) as char
  }

  function DecodeOne(p: Piece): char {
    match p
    case Raw(c) => c
    case Escape(c) =>
      (match c
       case 'b' => '\U{08}'
       case 'f' => '\U{0C}'
       case 'n' => '\n'
       case 'r' => '\r'
       case 't' => '\t'
       case _ => c)
    case Unicode(_) =>
      if 0xD800 <= CodeUnit(p) < 0xE000 then '\U{FFFD}' else CodeUnit(p) as char
  }

  function Decode(ps: seq<Piece>): string {
    if ps == [] then ""
    else if |ps| > 1 && IsHigh(ps[0]) && IsLow(ps[1]) then [DecodePair(ps[0], ps[1])] + Decode(ps[2..])
    else [DecodeOne(ps[0])] + Decode(ps[1..])
  }

  // ---------- decoding is the inverse of escaping every character ----------

  function HexChar(d: nat): (c: char)
    requires d < 16
    ensures IsHex(c) && HexDigit(c) == d
  {
    if d < 10 then '0' + d as char else 'a' + (d - 10) as char
  }

  /** The escape of a UTF-16 code unit. */
  function EscapeUnit(n: nat): (p: Piece)
    requires n < 0x1_0000
    ensures LegalPiece(p) && p.Unicode? && CodeUnit(p) == n
  {
    HexDigits(n);
    Unicode([HexChar(n / 0x1000), HexChar(n / 0x100 % 16), HexChar(n / 16 % 16), HexChar(n % 16)])
  }

  lemma HexDigits(n: nat)
    requires n < 0x1_0000
    ensures n / 0x1000 < 16
    ensures ((n / 0x1000 * 16 + n / 0x100 % 16) * 16 + n / 16 % 16) * 16 + n % 16 == n
  {
    assert n / 0x1000 * 16 + n / 0x100 % 16 == n / 0x100;
    assert n / 0x100 * 16 + n / 16 % 16 == n / 16;
  }

  /** A character as one escape, or as an escaped surrogate pair above U+FFFF. */
  function EscapeChar(c: char): (ps: seq<Piece>)
    ensures LegalPieces(ps)
  {
    var n := c as int;
    if n < 0x1_0000 then [EscapeUnit(n)]
    else [EscapeUnit(0xD800 + (n - 0x1_0000) / 0x400), EscapeUnit(0xDC00 + (n - 0x1_0000) % 0x400)]
  }

  function EscapeAll(s: string): (ps: seq<Piece>)
    ensures LegalPieces(ps)
  {
    if s == "" then [] else EscapeChar(s[0]) + EscapeAll(s[1..])
  }

  lemma DecodeChar(c: char, rest: seq<Piece>)
    ensures Decode(EscapeChar(c) + rest) == [c] + Decode(rest)
  {
    var n, ps := c as int, EscapeChar(c) + rest;
    if n < 0x1_0000 {
      assert ps[0] == EscapeUnit(n) && ps[1..] == rest;
      assert DecodeOne(ps[0]) == c;
    } else {
      assert IsHigh(ps[0]) && IsLow(ps[1]) && ps[2..] == rest;
      assert (n - 0x1_0000) / 0x400 * 0x400 + (n - 0x1_0000) % 0x400 == n - 0x1_0000;
      assert DecodePair(ps[0], ps[1]) == c;
    }
  }

  /** Every text is decoded back from its escapes, surrogate pairs included. */
  lemma {:induction false} DecodeEscaped(s: string)
    ensures Decode(EscapeAll(s)) == s
  {
    if s != "" {
      DecodeChar(s[0], EscapeAll(s[1..]));
      DecodeEscaped(s[1..]);
    }
  }

  // ---------- decoding is the inverse of escaping where a short escape exists ----------

  /** A character's two-character escape in section 7 of RFC 8259. */
  function ShortEscape(c: char): (letter: char)
    requires c in "\"\\/\U{08}\U{0C}\n\r\t"
    ensures LegalPiece(Escape(letter))
  {
    if c == '\U{08}' then 'b'
    else if c == '\U{0C}' then 'f'
    else if c == '\n' then 'n'
    else if c == '\r' then 'r'
    else if c == '\t' then 't'
    else c
  }

  /** A character as it is, or escaped if it must be or can be in short. */
  function WritePiece(c: char): (ps: seq<Piece>)
    ensures LegalPieces(ps)
  {
    if c in "\"\\/\U{08}\U{0C}\n\r\t" then [Escape(ShortEscape(c))]
    else if c < ' ' then EscapeChar(c)
    else [Raw(c)]
  }

  function WritePieces(s: string): (ps: seq<Piece>)
    ensures LegalPieces(ps)
  {
    if s == "" then [] else WritePiece(s[0]) + WritePieces(s[1..])
  }

  lemma DecodeWritten(c: char, rest: seq<Piece>)
    ensures Decode(WritePiece(c) + rest) == [c] + Decode(rest)
  {
    if c !in "\"\\/\U{08}\U{0C}\n\r\t" && c < ' ' {
      DecodeChar(c, rest);
    } else {
      var ps := WritePiece(c) + rest;
      assert ps[1..] == rest && !IsHigh(ps[0]);
    }
  }

  /** Every text is decoded back from its characters and short escapes. */
  lemma {:induction false} DecodeShort(s: string)
    ensures Decode(WritePieces(s)) == s
    decreases |s|
  {
    if s != "" {
      DecodeWritten(s[0], WritePieces(s[1..]));
      DecodeShort(s[1..]);
    }
  }

  /** The eight short escapes, one by one. */
  lemma ShortEscapes()
    ensures Decode([Escape('"')]) == "\"" && Decode([Escape('\\')]) == "\\" && Decode([Escape('/')]) == "/"
    ensures Decode([Escape('b')]) == "\U{08}" && Decode([Escape('f')]) == "\U{0C}"
    ensures Decode([Escape('n')]) == "\n" && Decode([Escape('r')]) == "\r" && Decode([Escape('t')]) == "\t"
  {
    forall c ensures Decode([Escape(c)]) == [DecodeOne(Escape(c))] {
      assert [Escape(c)][1..] == [] && Decode([]) == "";
    }
  }

  /** The value of a hexadecimal digit in either case: its place among the sixteen. */
  lemma HexDigitExactly(c: char)
    requires IsHex(c)
    ensures HexDigit(c) < 16
    ensures c == "0123456789abcdef"[HexDigit(c)] || c == "0123456789ABCDEF"[HexDigit(c)]
  {
  }

  /** An escape names the code unit with its four digits, and stands for that character or, if it is half of a pair, for U+FFFD. */
  lemma UnicodeEscape(hex: string)
    requires LegalPiece(Unicode(hex))
    ensures var n := ((HexDigit(hex[0]) * 16 + HexDigit(hex[1])) * 16 + HexDigit(hex[2])) * 16 + HexDigit(hex[3]);
            Decode([Unicode(hex)]) == if 0xD800 <= n < 0xE000 then "\U{FFFD}" else [n as char]
  {
    var ps := [Unicode(hex)];
    assert ps[1..] == [] && Decode([]) == "";
    assert Decode(ps) == [DecodeOne(ps[0])];
  }

  // ---------- decoding after the spaces are gone ----------

  /** A space written as the escape `\u0020`, which the rewrite does not see. */
  predicate EscapesSpace(ps: seq<Piece>) {
    exists i :: 0 <= i < |ps| && ps[i] != Raw(' ') && DecodeOne(ps[i]) == ' '
  }

  /** Raw spaces and then an escaped low surrogate, or that surrogate at once. */
  predicate LowAfterSpaces(ps: seq<Piece>) {
    ps != [] && (IsLow(ps[0]) || (ps[0] == Raw(' ') && LowAfterSpaces(ps[1..])))
  }

  /** Raw spaces stand between an escaped high and an escaped low surrogate at i. */
  predicate SplitsAt(ps: seq<Piece>, i: int) {
    0 <= i < |ps| - 1 && IsHigh(ps[i]) && ps[i + 1] == Raw(' ') && LowAfterSpaces(ps[i + 1..])
  }

  predicate SplitsPair(ps: seq<Piece>) {
    exists i :: 0 <= i < |ps| && SplitsAt(ps, i)
  }

  lemma {:induction false} LowAfterSpacesExact(ps: seq<Piece>)
    ensures LowAfterSpaces(ps) <==> StripPieces(ps) != [] && IsLow(StripPieces(ps)[0])
  {
    if ps != [] && ps[0] == Raw(' ') {
      LowAfterSpacesExact(ps[1..]);
    }
  }

  lemma SplitsAtLater(ps: seq<Piece>, n: nat)
    requires n <= |ps|
    ensures forall i :: n <= i ==> (SplitsAt(ps, i) <==> SplitsAt(ps[n..], i - n))
  {
    forall i | n <= i ensures SplitsAt(ps, i) <==> SplitsAt(ps[n..], i - n) {
      if i + 1 <= |ps| {
        assert ps[n..][i - n + 1..] == ps[i + 1..];
      }
    }
  }

  lemma SplitsLater(ps: seq<Piece>, n: nat)
    requires n <= |ps| && forall i :: 0 <= i < n ==> !SplitsAt(ps, i)
    ensures SplitsPair(ps) <==> SplitsPair(ps[n..])
  {
    SplitsAtLater(ps, n);
    if SplitsPair(ps[n..]) {
      var i :| 0 <= i < |ps[n..]| && SplitsAt(ps[n..], i);
      assert SplitsAt(ps, i + n) <==> SplitsAt(ps[n..], i + n - n);
    }
  }

  lemma EscapesLater(ps: seq<Piece>, n: nat)
    requires n <= |ps| && forall i :: 0 <= i < n ==> ps[i] == Raw(' ') || DecodeOne(ps[i]) != ' '
    ensures EscapesSpace(ps) <==> EscapesSpace(ps[n..])
  {
    assert forall i :: n <= i < |ps| ==> ps[i] == ps[n..][i - n];
  }

  /** Deleting the raw spaces of a literal deletes the spaces of its decoded text, and no more. */
  predicate Faithful(ps: seq<Piece>) {
    Decode(StripPieces(ps)) == StripSpaces(Decode(ps))
  }

  lemma ConsEqual(c: char, a: string, b: string)
    ensures [c] + a == [c] + b <==> a == b
  {
    assert ([c] + a)[1..] == a && ([c] + b)[1..] == b;
  }

  lemma StripCons(c: char, s: string)
    requires c != ' '
    ensures StripSpaces([c] + s) == [c] + StripSpaces(s)
  {
    assert ([c] + s)[1..] == s;
  }

  lemma FaithfulAfterSpace(ps: seq<Piece>)
    requires ps != [] && ps[0] == Raw(' ')
    ensures Faithful(ps) <==> Faithful(ps[1..])
  {
    assert Decode(ps) == [' '] + Decode(ps[1..]);
    assert ([' '] + Decode(ps[1..]))[1..] == Decode(ps[1..]);
  }

  lemma FaithfulAfterPair(ps: seq<Piece>)
    requires |ps| > 1 && IsHigh(ps[0]) && IsLow(ps[1])
    ensures Faithful(ps) <==> Faithful(ps[2..])
  {
    var c, rest := DecodePair(ps[0], ps[1]), StripPieces(ps[2..]);
    var both := [ps[0], ps[1]] + rest;
    assert StripPieces(ps) == both by {
      assert ps[1..][1..] == ps[2..];
      assert StripPieces(ps[1..]) == [ps[1]] + rest;
      assert [ps[0]] + ([ps[1]] + rest) == both;
    }
    assert both[2..] == rest;
    assert Decode(both) == [c] + Decode(rest);
    StripCons(c, Decode(ps[2..]));
    ConsEqual(c, Decode(rest), StripSpaces(Decode(ps[2..])));
  }

  /** A piece that is decoded on its own before and after the deletion. */
  lemma FaithfulAfterOne(ps: seq<Piece>)
    requires ps != [] && DecodeOne(ps[0]) != ' '
    requires !(|ps| > 1 && IsHigh(ps[0]) && IsLow(ps[1]))
    requires !(IsHigh(ps[0]) && LowAfterSpaces(ps[1..]))
    ensures Faithful(ps) <==> Faithful(ps[1..])
  {
    var c, rest := DecodeOne(ps[0]), StripPieces(ps[1..]);
    var whole := [ps[0]] + rest;
    LowAfterSpacesExact(ps[1..]);
    assert StripPieces(ps) == whole && whole[1..] == rest;
    assert Decode(whole) == [c] + Decode(rest);
    StripCons(c, Decode(ps[1..]));
    ConsEqual(c, Decode(rest), StripSpaces(Decode(ps[1..])));
  }

  lemma UnfaithfulEscape(ps: seq<Piece>)
    requires ps != [] && ps[0] != Raw(' ') && DecodeOne(ps[0]) == ' '
    ensures !Faithful(ps)
  {
    StripChars(Decode(ps));
    assert Decode(StripPieces(ps))[0] == ' ';
  }

  lemma UnfaithfulSplit(ps: seq<Piece>)
    requires |ps| > 1 && IsHigh(ps[0]) && !IsLow(ps[1]) && LowAfterSpaces(ps[1..])
    ensures !Faithful(ps)
  {
    var rest := StripPieces(ps[1..]);
    LowAfterSpacesExact(ps[1..]);
    assert StripPieces(ps) == [ps[0]] + rest;
    assert Decode(StripPieces(ps))[0] == DecodePair(ps[0], rest[0]);
    StripCons('\U{FFFD}', Decode(ps[1..]));
    assert StripSpaces(Decode(ps))[0] == '\U{FFFD}';
  }

  /**
    Decoding what is left of a literal gives the original decoded text without
    its spaces, if and only if the literal neither spells a space as an escape
    nor has raw spaces between the two halves of an escaped surrogate pair: in
    the first case a space survives, in the second two U+FFFD become a new
    character.
  */
  lemma DecodeStripped(ps: seq<Piece>)
    ensures Decode(StripPieces(ps)) == StripSpaces(Decode(ps)) <==> !EscapesSpace(ps) && !SplitsPair(ps)
  {
    FaithfulExact(ps);
  }

  predicate Breaks(ps: seq<Piece>) {
    EscapesSpace(ps) || SplitsPair(ps)
  }

  lemma BreaksLater(ps: seq<Piece>, n: nat)
    requires n <= |ps| && forall i :: 0 <= i < n ==> ps[i] == Raw(' ') || DecodeOne(ps[i]) != ' '
    requires forall i :: 0 <= i < n ==> !SplitsAt(ps, i)
    ensures Breaks(ps) <==> Breaks(ps[n..])
  {
    EscapesLater(ps, n);
    SplitsLater(ps, n);
  }

  lemma {:induction false} FaithfulExact(ps: seq<Piece>)
    ensures Faithful(ps) <==> !Breaks(ps)
    decreases |ps|
  {
    if ps == [] {
    } else if ps[0] == Raw(' ') {
      assert Faithful(ps) == Faithful(ps[1..]) by { FaithfulAfterSpace(ps); }
      FaithfulExact(ps[1..]);
      assert Breaks(ps) == Breaks(ps[1..]) by { BreaksLater(ps, 1); }
    } else if |ps| > 1 && IsHigh(ps[0]) && IsLow(ps[1]) {
      assert Faithful(ps) == Faithful(ps[2..]) by { FaithfulAfterPair(ps); }
      FaithfulExact(ps[2..]);
      assert Breaks(ps) == Breaks(ps[2..]) by { BreaksLater(ps, 2); }
    } else if DecodeOne(ps[0]) == ' ' {
      UnfaithfulEscape(ps);
    } else if IsHigh(ps[0]) && LowAfterSpaces(ps[1..]) {
      UnfaithfulSplit(ps);
      assert SplitsAt(ps, 0);
    } else {
      assert Faithful(ps) == Faithful(ps[1..]) by { FaithfulAfterOne(ps); }
      FaithfulExact(ps[1..]);
      assert Breaks(ps) == Breaks(ps[1..]) by { BreaksLater(ps, 1); }
    }
  }

  // ---------- literals that the deletion upsets ----------

  /** A literal that spells one space as an escape: the space survives the deletion. */
  lemma EscapedSpaceSurvives()
    ensures var ps := [Unicode("0020")];
            LegalPieces(ps) && !Faithful(ps) && Decode(StripPieces(ps)) == " " && StripSpaces(Decode(ps)) == ""
  {
    var ps := [Unicode("0020")];
    assert CodeUnit(ps[0]) == 0x20 && DecodeOne(ps[0]) == ' ';
    assert ps[1..] == [] && StripPieces(ps) == ps;
    assert " "[1..] == "";
    assert Decode(ps) == " ";
  }

  /**
    Any character above U+FFFF, escaped as two surrogates with a raw space
    between them: the literal has two replacement characters and a space, and
    is the character itself after the deletion.
  */
  lemma SplitPairJoins(c: char)
    requires c as int >= 0x1_0000
    ensures var ps := [EscapeChar(c)[0], Raw(' '), EscapeChar(c)[1]];
            && LegalPieces(ps) && !Faithful(ps)
            && Decode(ps) == "\U{FFFD} \U{FFFD}" && Decode(StripPieces(ps)) == [c]
  {
    Halves(c);
    var high, low := EscapeChar(c)[0], EscapeChar(c)[1];
    SplitPair(high, low);
    assert Decode([high, low]) == [c] by {
      assert [high, low] == EscapeChar(c) + [] && Decode([]) == "";
      DecodeChar(c, []);
    }
  }

  lemma Halves(c: char)
    requires c as int >= 0x1_0000
    ensures |EscapeChar(c)| == 2 && IsHigh(EscapeChar(c)[0]) && IsLow(EscapeChar(c)[1])
  {
    var n := c as int - 0x1_0000;
    HalfBounds(n);
    HighHalf(0xD800 + n / 0x400);
    LowHalf(0xDC00 + n % 0x400);
  }

  lemma HalfBounds(n: nat)
    requires n < 0x10_0000
    ensures n / 0x400 < 0x400 && n % 0x400 < 0x400
  {
  }

  lemma HighHalf(u: nat)
    requires 0xD800 <= u < 0xDC00
    ensures IsHigh(EscapeUnit(u))
  {
  }

  lemma LowHalf(u: nat)
    requires 0xDC00 <= u < 0xE000
    ensures IsLow(EscapeUnit(u))
  {
  }

  lemma SplitPair(high: Piece, low: Piece)
    requires IsHigh(high) && IsLow(low)
    ensures var ps := [high, Raw(' '), low];
            && !Faithful(ps) && Decode(ps) == "\U{FFFD} \U{FFFD}" && StripPieces(ps) == [high, low]
  {
    var ps := [high, Raw(' '), low];
    assert ps[1..] == [Raw(' '), low] && ps[1..][1..] == [low] && [low][1..] == [];
    assert StripPieces([low]) == [low] && StripPieces(ps[1..]) == [low];
    assert StripPieces(ps) == [high] + [low];
    assert Decode([low]) == "\U{FFFD}" && Decode(ps[1..]) == [' '] + "\U{FFFD}";
    assert Decode(ps) == ['\U{FFFD}'] + ([' '] + "\U{FFFD}");
    assert LowAfterSpaces([low]) && LowAfterSpaces(ps[1..]);
    UnfaithfulSplit(ps);
  }
}
