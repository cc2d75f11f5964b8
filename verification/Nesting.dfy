/**
  Brackets and strings of a JSON text, by a scan from left to right: which
  commas and which boundaries stand outside of all objects and arrays.
*/
module Nesting {
  import opened Json
  import opened JsonExact
  import opened Boundary

  // ---------- the scan ----------

  /** Where the scan is: in how many brackets, and in a string or after a backslash in one. */
  datatype Spot = Open(depth: int) | Quoted(depth: int) | Escaped(depth: int)

  function Next(p: Spot, c: char): Spot {
    match p
    case Open(d) =>
      if c == '"' then Quoted(d)
      else if c == '{' || c == '[' then Open(d + 1)
      else if c == '}' || c == ']' then Open(d - 1)
      else p
    case Quoted(d) => if c == '"' then Open(d) else if c == '\\' then Escaped(d) else p
    case Escaped(d) => Quoted(d)
  }

  function Track(p: Spot, s: string): Spot
    decreases |s|
  {
    if s == "" then p else Track(Next(p, s[0]), s[1..])
  }

  /** No comma stands outside of all brackets and strings. */
  predicate NoTopComma(s: string) {
    forall i :: 0 <= i < |s| && s[i] == ',' ==> Track(Open(0), s[..i]) != Open(0)
  }

  /** The first brace of every boundary closes an object that stands in no other bracket. */
  predicate TopBoundaries(s: string) {
    forall i :: 0 <= i < |s| && Hit(s, i) ==> Track(Open(0), s[..i + 1]) == Open(0)
  }

  lemma {:induction false} TrackConcat(p: Spot, a: string, b: string)
    ensures Track(p, a + b) == Track(Track(p, a), b)
    decreases |a|
  {
    if a == "" {
      assert a + b == b;
    } else {
      assert (a + b)[1..] == a[1..] + b;
      TrackConcat(Next(p, a[0]), a[1..], b);
    }
  }

  lemma TrackConcat3(p: Spot, a: string, b: string, c: string)
    ensures Track(p, a + b + c) == Track(Track(Track(p, a), b), c)
  {
    TrackConcat(p, a + b, c);
    TrackConcat(p, a, b);
  }

  lemma TrackOne(p: Spot, c: char)
    ensures Track(p, [c]) == Next(p, c)
  {
    assert [c][1..] == "";
  }

  // ---------- the commas of a valid value ----------

  /** No comma stands in d brackets or fewer. */
  predicate Above(p: Spot, d: int, s: string) {
    forall i :: 0 <= i < |s| && s[i] == ',' ==> var q := Track(p, s[..i]); q.Open? ==> q.depth > d
  }

  lemma AboveConcat(p: Spot, d: int, a: string, b: string)
    requires Above(p, d, a) && Above(Track(p, a), d, b)
    ensures Above(p, d, a + b)
  {
    var s := a + b;
    forall i | 0 <= i < |s| && s[i] == ',' ensures var q := Track(p, s[..i]); q.Open? ==> q.depth > d {
      if i < |a| {
        assert s[..i] == a[..i];
      } else {
        assert s[..i] == a + b[..i - |a|];
        TrackConcat(p, a, b[..i - |a|]);
      }
    }
  }

  lemma AboveConcat3(p: Spot, d: int, a: string, b: string, c: string)
    requires Above(p, d, a) && Above(Track(p, a), d, b) && Above(Track(Track(p, a), b), d, c)
    ensures Above(p, d, a + b + c)
  {
    AboveConcat(p, d, a, b);
    TrackConcat(p, a, b);
    AboveConcat(p, d, a + b, c);
  }

  lemma AboveOne(p: Spot, d: int, c: char)
    requires c == ',' && p.Open? ==> p.depth > d
    ensures Above(p, d, [c])
  {
    assert [c][..0] == "";
  }

  /** The text ends at the depth where it begins, and its commas are deeper. */
  predicate Level(d: int, s: string) {
    Track(Open(d), s) == Open(d) && Above(Open(d), d, s)
  }

  lemma LevelConcat(d: int, a: string, b: string)
    requires Level(d, a) && Level(d, b)
    ensures Level(d, a + b)
  {
    TrackConcat(Open(d), a, b);
    AboveConcat(Open(d), d, a, b);
  }

  /** Text outside of strings without brackets and commas. */
  lemma {:induction false} TrackFlat(d: int, s: string)
    requires forall i :: 0 <= i < |s| ==> s[i] !in "{}[],\""
    ensures Level(d, s)
    decreases |s|
  {
    if s != "" {
      TrackFlat(d, s[1..]);
      AboveOne(Open(d), d, s[0]);
      TrackOne(Open(d), s[0]);
      AboveConcat(Open(d), d, [s[0]], s[1..]);
      assert [s[0]] + s[1..] == s;
    }
  }

  lemma TrackLayout(d: int, w: string)
    requires AllLayout(w)
    ensures Level(d, w)
  {
    TrackFlat(d, w);
  }

  /** Text inside a string without quotation marks and backslashes. */
  lemma {:induction false} TrackRaw(d: int, s: string)
    requires forall i :: 0 <= i < |s| ==> s[i] != '"' && s[i] != '\\'
    ensures Track(Quoted(d), s) == Quoted(d) && Above(Quoted(d), d, s)
    decreases |s|
  {
    if s != "" {
      TrackRaw(d, s[1..]);
      AboveOne(Quoted(d), d, s[0]);
      TrackOne(Quoted(d), s[0]);
      AboveConcat(Quoted(d), d, [s[0]], s[1..]);
      assert [s[0]] + s[1..] == s;
    }
  }

  lemma TrackPiece(d: int, p: Piece)
    requires LegalPiece(p)
    ensures Track(Quoted(d), RenderPiece(p)) == Quoted(d) && Above(Quoted(d), d, RenderPiece(p))
  {
    match p
    case Raw(c) =>
      TrackRaw(d, [c]);
    case Escape(c) =>
      TrackEscape(d, c, "");
      assert ['\\', c] + "" == RenderPiece(p);
    case Unicode(hex) =>
      TrackEscape(d, 'u', hex);
  }

  lemma TrackEscape(d: int, c: char, rest: string)
    requires forall i :: 0 <= i < |rest| ==> rest[i] != '"' && rest[i] != '\\'
    ensures Track(Quoted(d), ['\\', c] + rest) == Quoted(d) && Above(Quoted(d), d, ['\\', c] + rest)
  {
    TrackOne(Quoted(d), '\\');
    TrackOne(Escaped(d), c);
    TrackRaw(d, rest);
    AboveOne(Quoted(d), d, '\\');
    AboveOne(Escaped(d), d, c);
    AboveConcat3(Quoted(d), d, ['\\'], [c], rest);
    TrackConcat3(Quoted(d), ['\\'], [c], rest);
    assert ['\\'] + [c] + rest == ['\\', c] + rest;
  }

  lemma {:induction false} TrackPieces(d: int, ps: seq<Piece>)
    requires LegalPieces(ps)
    ensures Track(Quoted(d), RenderPieces(ps)) == Open(d) && Above(Quoted(d), d, RenderPieces(ps))
    decreases |ps|
  {
    if ps == [] {
      TrackOne(Quoted(d), '"');
      AboveOne(Quoted(d), d, '"');
    } else {
      TrackPiece(d, ps[0]);
      TrackPieces(d, ps[1..]);
      TrackConcat(Quoted(d), RenderPiece(ps[0]), RenderPieces(ps[1..]));
      AboveConcat(Quoted(d), d, RenderPiece(ps[0]), RenderPieces(ps[1..]));
    }
  }

  /** A string in quotation marks, as a value or a key. */
  lemma TrackLiteral(d: int, ps: seq<Piece>)
    requires LegalPieces(ps)
    ensures Level(d, "\"" + RenderPieces(ps))
  {
    TrackOne(Open(d), '"');
    AboveOne(Open(d), d, '"');
    TrackPieces(d, ps);
    TrackConcat(Open(d), "\"", RenderPieces(ps));
    AboveConcat(Open(d), d, "\"", RenderPieces(ps));
  }

  lemma TrackBracketed(d: int, open: char, content: string, close: char)
    requires open == '[' || open == '{'
    requires close == ']' || close == '}'
    requires Track(Open(d + 1), content) == Open(d + 1) && Above(Open(d + 1), d, content)
    ensures Level(d, [open] + content + [close])
  {
    TrackOne(Open(d), open);
    TrackOne(Open(d + 1), close);
    AboveOne(Open(d), d, open);
    AboveOne(Open(d + 1), d, close);
    TrackConcat3(Open(d), [open], content, [close]);
    AboveConcat3(Open(d), d, [open], content, [close]);
  }

  lemma TrackWord(d: int, v: Value)
    requires Legal(v)
    requires v.Null? || v.True? || v.False? || v.Number?
    ensures Level(d, Render(v))
  {
    var l := Render(v);
    if v.Number? {
      NumberChars(l);
    }
    forall i | 0 <= i < |l| ensures l[i] !in "{}[],\"" {
      FlatChar(l[i]);
    }
    TrackFlat(d, l);
  }

  lemma FlatChar(c: char)
    requires 'a' <= c <= 'z' || IsNumberChar(c)
    ensures c !in "{}[],\""
  {
  }

  /** A valid value ends at the depth where it begins, and its commas are deeper. */
  lemma {:induction false} TrackValue(d: int, v: Value)
    requires Legal(v)
    ensures Level(d, Render(v))
    decreases v, 0
  {
    match v
    case Literal(ps) =>
      TrackLiteral(d, ps);
    case EmptyArray(gap) =>
      TrackLayout(d + 1, gap);
      TrackBracketed(d, '[', gap, ']');
    case EmptyObject(gap) =>
      TrackLayout(d + 1, gap);
      TrackBracketed(d, '{', gap, '}');
    case Array(items) =>
      TrackElements(d, items);
      TrackBracketed(d, '[', RenderElements(items), ']');
    case Object(members) =>
      TrackMembers(d, members);
      TrackBracketed(d, '{', RenderMembers(members), '}');
    case _ =>
      TrackWord(d, v);
  }

  lemma {:induction false} TrackElement(d: int, e: Element)
    requires LegalElement(e)
    ensures Level(d, RenderElement(e))
    decreases e, 1
  {
    TrackLayout(d, e.before);
    TrackValue(d, e.value);
    TrackLayout(d, e.after);
    LevelConcat(d, e.before, Render(e.value));
    LevelConcat(d, e.before + Render(e.value), e.after);
  }

  lemma {:induction false} TrackElements(d: int, es: Elements)
    requires LegalElements(es)
    ensures Track(Open(d + 1), RenderElements(es)) == Open(d + 1) && Above(Open(d + 1), d, RenderElements(es))
    decreases es, 2
  {
    TrackElement(d + 1, es.e);
    if es.Item? {
      TrackElements(d, es.tail);
      TrackSeparated(d, RenderElement(es.e), RenderElements(es.tail));
    }
  }

  lemma TrackSeparated(d: int, a: string, b: string)
    requires Track(Open(d + 1), a) == Open(d + 1) && Above(Open(d + 1), d, a)
    requires Track(Open(d + 1), b) == Open(d + 1) && Above(Open(d + 1), d, b)
    ensures Track(Open(d + 1), a + "," + b) == Open(d + 1) && Above(Open(d + 1), d, a + "," + b)
  {
    TrackOne(Open(d + 1), ',');
    AboveOne(Open(d + 1), d, ',');
    TrackConcat3(Open(d + 1), a, ",", b);
    AboveConcat3(Open(d + 1), d, a, ",", b);
  }

  lemma {:induction false} TrackMember(d: int, m: Member)
    requires LegalMember(m)
    ensures Level(d, RenderMember(m))
    decreases m, 1
  {
    TrackLayout(d, m.before);
    TrackLiteral(d, m.key);
    TrackLayout(d, m.after);
    TrackFlat(d, ":");
    TrackElement(d, m.e);
    LevelMember(d, m.before, RenderPieces(m.key), m.after, RenderElement(m.e));
  }

  lemma LevelMember(d: int, before: string, key: string, after: string, e: string)
    requires Level(d, before) && Level(d, "\"" + key) && Level(d, after) && Level(d, ":") && Level(d, e)
    ensures Level(d, before + "\"" + key + after + ":" + e)
  {
    LevelConcat(d, before, "\"" + key);
    assert before + ("\"" + key) == before + "\"" + key;
    LevelConcat(d, before + "\"" + key, after);
    LevelConcat(d, before + "\"" + key + after, ":");
    LevelConcat(d, before + "\"" + key + after + ":", e);
  }

  lemma {:induction false} TrackMembers(d: int, ms: Members)
    requires LegalMembers(ms)
    ensures Track(Open(d + 1), RenderMembers(ms)) == Open(d + 1) && Above(Open(d + 1), d, RenderMembers(ms))
    decreases ms, 2
  {
    TrackMember(d + 1, ms.m);
    if ms.NextMember? {
      TrackMembers(d, ms.tail);
      TrackSeparated(d, RenderMember(ms.m), RenderMembers(ms.tail));
    }
  }
}
