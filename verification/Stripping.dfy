/**
  Deleting every U+0020 from a JSON text (pkg/manifest/manifest.go:219).
  The deletion knows nothing of strings or tokens, yet on a valid text it acts
  as if it had been made on the syntax tree: layout shrinks, string literals
  lose their raw spaces, and no token is merged, split or broken.
*/
module Stripping {
  import opened Text
  import opened Json
  import opened JsonExact

  // ---------- the deletion on syntax trees ----------

  function StripPieces(ps: seq<Piece>): seq<Piece> {
    if ps == [] then []
    else if ps[0] == Raw(' ') then StripPieces(ps[1..])
    else [ps[0]] + StripPieces(ps[1..])
  }

  function StripValue(v: Value): Value {
    match v
    case Literal(ps) => Literal(StripPieces(ps))
    case EmptyArray(gap) => EmptyArray(StripSpaces(gap))
    case Array(items) => Array(StripElements(items))
    case EmptyObject(gap) => EmptyObject(StripSpaces(gap))
    case Object(members) => Object(StripMembers(members))
    case _ => v
  }

  function StripElement(e: Element): Element {
    Element(StripSpaces(e.before), StripValue(e.value), StripSpaces(e.after))
  }

  function StripElements(es: Elements): Elements {
    match es
    case LastItem(e) => LastItem(StripElement(e))
    case Item(e, tail) => Item(StripElement(e), StripElements(tail))
  }

  function StripMember(m: Member): Member {
    Member(StripSpaces(m.before), StripPieces(m.key), StripSpaces(m.after), StripElement(m.e))
  }

  function StripMembers(ms: Members): Members {
    match ms
    case LastMember(m) => LastMember(StripMember(m))
    case NextMember(m, tail) => NextMember(StripMember(m), StripMembers(tail))
  }

  // ---------- the deletion on meanings ----------

  function DropSpaces(d: Doc): Doc {
    match d
    case JString(ps) => JString(StripPieces(ps))
    case JArray(items) => JArray(DropAll(items))
    case JObject(members) => JObject(DropFields(members))
    case _ => d
  }

  function DropAll(ds: seq<Doc>): (r: seq<Doc>)
    ensures |r| == |ds|
    ensures forall i :: 0 <= i < |ds| ==> r[i] == DropSpaces(ds[i])
  {
    if ds == [] then [] else [DropSpaces(ds[0])] + DropAll(ds[1..])
  }

  function DropFields(fs: seq<Field>): (r: seq<Field>)
    ensures |r| == |fs|
    ensures forall i :: 0 <= i < |fs| ==> r[i] == Field(StripPieces(fs[i].key), DropSpaces(fs[i].value))
  {
    if fs == [] then []
    else [Field(StripPieces(fs[0].key), DropSpaces(fs[0].value))] + DropFields(fs[1..])
  }

  /** Some string literal or key holds a raw space. */
  predicate HasRawSpace(d: Doc) {
    match d
    case JString(ps) => Raw(' ') in ps
    case JArray(items) => exists i :: 0 <= i < |items| && HasRawSpace(items[i])
    case JObject(fs) => exists i :: 0 <= i < |fs| && (Raw(' ') in fs[i].key || HasRawSpace(fs[i].value))
    case _ => false
  }

  // ---------- the two deletions agree ----------

  lemma StripLayout(w: string)
    requires AllLayout(w)
    ensures AllLayout(StripSpaces(w))
  {
    StripChars(w);
    var t := StripSpaces(w);
    forall i | 0 <= i < |t| ensures IsLayout(t[i]) {
      assert t[i] in t && t[i] in w;
    }
  }

  lemma {:induction false} StripRenderPieces(ps: seq<Piece>)
    requires LegalPieces(ps)
    ensures StripSpaces(RenderPieces(ps)) == RenderPieces(StripPieces(ps))
    ensures LegalPieces(StripPieces(ps))
  {
    if ps == [] {
      StripChars("\"");
    } else {
      StripRenderPieces(ps[1..]);
      StripConcat(RenderPiece(ps[0]), RenderPieces(ps[1..]));
      StripRenderPiece(ps[0]);
      var rest := StripPieces(ps[1..]);
      assert ([ps[0]] + rest)[1..] == rest;
    }
  }

  lemma StripRenderPiece(p: Piece)
    requires LegalPiece(p)
    ensures StripSpaces(RenderPiece(p)) == if p == Raw(' ') then "" else RenderPiece(p)
  {
    StripChars(RenderPiece(p));
    if p == Raw(' ') {
      assert RenderPiece(p)[1..] == "";
    }
  }

  lemma StripConcat3(a: string, b: string, c: string)
    ensures StripSpaces(a + b + c) == StripSpaces(a) + StripSpaces(b) + StripSpaces(c)
  {
    StripConcat(a + b, c);
    StripConcat(a, b);
  }

  lemma StripWord(v: Value)
    requires Legal(v)
    requires v.Null? || v.True? || v.False? || v.Number?
    ensures StripSpaces(Render(v)) == Render(v)
  {
    StripChars(Render(v));
    if v.Number? {
      NumberChars(v.lexeme);
    }
  }

  /** Stripping a structural character: it stays. */
  lemma StripMark(c: char)
    requires c != ' '
    ensures StripSpaces([c]) == [c]
  {
    StripChars([c]);
  }

  lemma {:induction false} StripRender(v: Value)
    requires Legal(v)
    ensures StripSpaces(Render(v)) == Render(StripValue(v))
    ensures Legal(StripValue(v))
    decreases v, 0
  {
    match v
    case Literal(ps) =>
      StripMark('"');
      StripConcat("\"", RenderPieces(ps));
      StripRenderPieces(ps);
    case EmptyArray(gap) =>
      StripMark('['); StripMark(']');
      StripConcat3("[", gap, "]");
      StripLayout(gap);
    case EmptyObject(gap) =>
      StripMark('{'); StripMark('}');
      StripConcat3("{", gap, "}");
      StripLayout(gap);
    case Array(items) =>
      StripMark('['); StripMark(']');
      StripConcat3("[", RenderElements(items), "]");
      StripRenderElements(items);
    case Object(members) =>
      StripMark('{'); StripMark('}');
      StripConcat3("{", RenderMembers(members), "}");
      StripRenderMembers(members);
    case _ =>
      StripWord(v);
  }

  lemma {:induction false} StripRenderElement(e: Element)
    requires LegalElement(e)
    ensures StripSpaces(RenderElement(e)) == RenderElement(StripElement(e))
    ensures LegalElement(StripElement(e))
    decreases e, 1
  {
    StripConcat3(e.before, Render(e.value), e.after);
    StripLayout(e.before);
    StripLayout(e.after);
    StripRender(e.value);
  }

  lemma {:induction false} StripRenderElements(es: Elements)
    requires LegalElements(es)
    ensures StripSpaces(RenderElements(es)) == RenderElements(StripElements(es))
    ensures LegalElements(StripElements(es))
    decreases es, 2
  {
    StripRenderElement(es.e);
    if es.Item? {
      StripMark(',');
      StripConcat3(RenderElement(es.e), ",", RenderElements(es.tail));
      StripRenderElements(es.tail);
    }
  }

  lemma {:induction false} StripRenderMember(m: Member)
    requires LegalMember(m)
    ensures StripSpaces(RenderMember(m)) == RenderMember(StripMember(m))
    ensures LegalMember(StripMember(m))
    decreases m, 1
  {
    StripMark('"'); StripMark(':');
    var key := RenderPieces(m.key);
    StripConcat3(m.before, "\"", key);
    StripConcat3(m.before + "\"" + key, m.after, ":");
    StripConcat(m.before + "\"" + key + m.after + ":", RenderElement(m.e));
    StripLayout(m.before);
    StripLayout(m.after);
    StripRenderPieces(m.key);
    StripRenderElement(m.e);
  }

  lemma {:induction false} StripRenderMembers(ms: Members)
    requires LegalMembers(ms)
    ensures StripSpaces(RenderMembers(ms)) == RenderMembers(StripMembers(ms))
    ensures LegalMembers(StripMembers(ms))
    decreases ms, 2
  {
    StripRenderMember(ms.m);
    if ms.NextMember? {
      StripMark(',');
      StripConcat3(RenderMember(ms.m), ",", RenderMembers(ms.tail));
      StripRenderMembers(ms.tail);
    }
  }

  lemma {:induction false} StripMeaning(v: Value)
    ensures Meaning(StripValue(v)) == DropSpaces(Meaning(v))
    decreases v
  {
    if v.Array? {
      StripMeanings(v.items);
    } else if v.Object? {
      StripFields(v.members);
    }
  }

  lemma {:induction false} StripMeanings(es: Elements)
    ensures Meanings(StripElements(es)) == DropAll(Meanings(es))
    decreases es
  {
    StripMeaning(es.e.value);
    if es.Item? {
      StripMeanings(es.tail);
      assert Meanings(es)[1..] == Meanings(es.tail);
    }
  }

  lemma {:induction false} StripFields(ms: Members)
    ensures FieldsOf(StripMembers(ms)) == DropFields(FieldsOf(ms))
    decreases ms
  {
    StripMeaning(ms.m.e.value);
    var m := StripMember(ms.m);
    assert m.e == StripElement(ms.m.e);
    assert Field(m.key, Meaning(m.e.value)) == Field(StripPieces(ms.m.key), DropSpaces(Meaning(ms.m.e.value)));
    var fields := FieldsOf(ms);
    assert DropFields(fields) == [Field(StripPieces(ms.m.key), DropSpaces(Meaning(ms.m.e.value)))] + DropFields(fields[1..]);
    if ms.NextMember? {
      StripFields(ms.tail);
      assert fields[1..] == FieldsOf(ms.tail);
    } else {
      assert fields[1..] == [];
      assert StripMembers(ms) == LastMember(m);
    }
  }

  /** Dropping spaces changes a document exactly when one of its literals holds a raw space. */
  lemma {:induction false} DropSpacesExact(d: Doc)
    ensures DropSpaces(d) == d <==> !HasRawSpace(d)
  {
    match d
    case JString(ps) =>
      StripPiecesExact(ps);
    case JArray(items) =>
      forall i | 0 <= i < |items| ensures DropSpaces(items[i]) == items[i] <==> !HasRawSpace(items[i]) {
        DropSpacesExact(items[i]);
      }
      assert DropAll(items) == items <==> forall i :: 0 <= i < |items| ==> DropSpaces(items[i]) == items[i];
    case JObject(fs) =>
      forall i | 0 <= i < |fs|
        ensures Field(StripPieces(fs[i].key), DropSpaces(fs[i].value)) == fs[i] <==>
                !(Raw(' ') in fs[i].key || HasRawSpace(fs[i].value))
      {
        StripPiecesExact(fs[i].key);
        DropSpacesExact(fs[i].value);
      }
      assert DropFields(fs) == fs <==>
             forall i :: 0 <= i < |fs| ==> Field(StripPieces(fs[i].key), DropSpaces(fs[i].value)) == fs[i];
    case _ =>
  }

  lemma {:induction false} StripPiecesExact(ps: seq<Piece>)
    ensures StripPieces(ps) == ps <==> Raw(' ') !in ps
    ensures |StripPieces(ps)| <= |ps|
    ensures Raw(' ') !in StripPieces(ps)
  {
    if ps != [] {
      StripPiecesExact(ps[1..]);
      assert ps == [ps[0]] + ps[1..];
    }
  }

  /**
    Deleting the spaces of any valid JSON text leaves a valid JSON text, whose
    meaning is the original one with the raw spaces dropped from its literals;
    the meaning is untouched if and only if no literal held one.
  */
  lemma StrippedTextMeaning(s: string)
    requires ParseText(s).Got?
    ensures ParseText(StripSpaces(s)) == Got(StripElement(ParseText(s).v), "")
    ensures Meaning(StripElement(ParseText(s).v).value) == DropSpaces(Meaning(ParseText(s).v.value))
    ensures Meaning(StripElement(ParseText(s).v).value) == Meaning(ParseText(s).v.value)
            <==> !HasRawSpace(Meaning(ParseText(s).v.value))
  {
    var e := ParseText(s).v;
    ParseTextExact(s, e);
    StripRenderElement(e);
    ParseTextExact(StripSpaces(s), StripElement(e));
    StripMeaning(e.value);
    DropSpacesExact(Meaning(e.value));
  }
}
