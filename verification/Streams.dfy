/**
  Which of the files that the program reads are streams of JSON objects at all:
  the rewrite accepts more than it was made for (pkg/manifest/manifest.go:219-221).
*/
module Streams {
  import opened Wrappers
  import opened Text
  import opened Json
  import opened JsonExact
  import opened Stripping
  import opened Boundary
  import opened Lexical
  import opened Nesting
  import opened Catalog

  /** The file is what the program is made for: JSON objects, with one newline and any spaces between them. */
  ghost predicate IsCatalog(data: string) {
    exists lead, chunks :: IsCatalogOf(data, lead, chunks)
  }

  predicate IsCatalogOf(data: string, lead: string, chunks: seq<Chunk>) {
    AllLayout(lead) && IsStream(chunks) && NewlineSeparated(chunks) && data == lead + Body(chunks)
  }

  predicate AllObjects(ds: seq<Doc>) {
    forall i :: 0 <= i < |ds| ==> ds[i].JObject?
  }

  // ---------- a stream passes the scans ----------

  lemma {:induction false} BodyLevel(chunks: seq<Chunk>)
    requires IsStream(chunks)
    ensures Level(0, Body(chunks))
    decreases |chunks|
  {
    if chunks != [] {
      var c := chunks[0];
      TextLevel(c.text);
      TrackLayout(0, c.gap);
      BodyLevel(chunks[1..]);
      LevelConcat(0, c.text, c.gap);
      LevelConcat(0, c.text + c.gap, Body(chunks[1..]));
    }
  }

  lemma TextLevel(x: string)
    requires IsObjectText(x)
    ensures Level(0, x)
  {
    ObjectText(x);
    TrackValue(0, ParseValue(x).v);
  }

  lemma {:induction false} BodySplit(chunks: seq<Chunk>, k: nat)
    requires k < |chunks|
    ensures Body(chunks[..k]) + chunks[k].text <= Body(chunks)
    decreases |chunks|
  {
    var c, tail := chunks[0], chunks[1..];
    if k == 0 {
      assert Body(chunks) == c.text + (c.gap + Body(tail));
      assert Body([]) + c.text == c.text;
    } else {
      BodySplit(tail, k - 1);
      assert chunks[..k][1..] == tail[..k - 1] && chunks[k] == tail[k - 1];
      var inner := Body(tail[..k - 1]) + chunks[k].text;
      assert Body(chunks[..k]) + chunks[k].text == (c.text + c.gap) + inner;
      assert (c.text + c.gap) + inner <= (c.text + c.gap) + Body(tail);
    }
  }

  /** Up to the end of any of its objects a stream is level. */
  lemma ObjectsLevel(lead: string, chunks: seq<Chunk>, k: nat)
    requires AllLayout(lead) && IsStream(chunks) && k < |chunks|
    ensures Level(0, lead + (Body(chunks[..k]) + chunks[k].text))
  {
    TrackLayout(0, lead);
    BodyLevel(chunks[..k]);
    TextLevel(chunks[k].text);
    LevelConcat(0, Body(chunks[..k]), chunks[k].text);
    LevelConcat(0, lead, Body(chunks[..k]) + chunks[k].text);
  }

  lemma StreamScans(lead: string, chunks: seq<Chunk>)
    requires AllLayout(lead) && IsStream(chunks)
    ensures NoTopComma(lead + Body(chunks)) && TopBoundaries(lead + Body(chunks))
  {
    var s := lead + Body(chunks);
    TrackLayout(0, lead);
    BodyLevel(chunks);
    LevelConcat(0, lead, Body(chunks));
    forall i | 0 <= i < |s| && Hit(s, i) ensures Track(Open(0), s[..i + 1]) == Open(0) {
      HitIsTop(lead, chunks, i);
    }
  }

  lemma HitIsTop(lead: string, chunks: seq<Chunk>, i: int)
    requires AllLayout(lead) && IsStream(chunks) && Hit(lead + Body(chunks), i)
    ensures Track(Open(0), (lead + Body(chunks))[..i + 1]) == Open(0)
  {
    var s := lead + Body(chunks);
    LeadBoundaryPositions(lead, chunks, i);
    var k :| MeetsAt(chunks, k, i - |lead|);
    BodySplit(chunks, k);
    ObjectsLevel(lead, chunks, k);
    assert s[..i + 1] == lead + (Body(chunks[..k]) + chunks[k].text);
  }

  lemma {:induction false} BodyUnbroken(chunks: seq<Chunk>)
    requires IsStream(chunks)
    ensures Walk(Between, Body(chunks)) == Between
    decreases |chunks|
  {
    if chunks != [] {
      var c := chunks[0];
      ObjectUnbroken(c.text);
      WalkLayout(Between, c.gap);
      BodyUnbroken(chunks[1..]);
      WalkConcat3(Between, c.text, c.gap, Body(chunks[1..]));
    }
  }

  lemma ObjectUnbroken(x: string)
    requires IsObjectText(x)
    ensures Walk(Between, x) == Between
  {
    ObjectText(x);
    match ParseValue(x).v
    case EmptyObject(gap) =>
      WalkLayout(Between, gap);
      WalkBracketed('{', gap, '}');
    case Object(members) =>
      WalkMembers(members);
      WalkBracketed('{', RenderMembers(members), '}');
  }

  lemma CatalogScans(data: string, lead: string, chunks: seq<Chunk>)
    requires IsCatalogOf(data, lead, chunks)
    ensures Unbroken(data) && NoTopComma(StripSpaces(data)) && TopBoundaries(StripSpaces(data))
    ensures ReadObjects(data).Some? && AllObjects(ReadObjects(data).value)
  {
    WalkLayout(Between, lead);
    BodyUnbroken(chunks);
    WalkConcat(Between, lead, Body(chunks));
    StripWholeText(lead, chunks);
    StreamScans(StripSpaces(lead), StripChunks(chunks));
    StreamRead(lead, chunks);
    DocsAreObjects(chunks);
  }

  lemma DocsAreObjects(chunks: seq<Chunk>)
    requires IsStream(chunks)
    ensures AllObjects(DropAll(Docs(chunks)))
  {
    forall i | 0 <= i < |chunks| ensures Docs(chunks)[i].JObject? {
      assert IsObjectText(chunks[i].text);
    }
  }

  // ---------- a text that is read and passes the scans was a stream without its spaces ----------

  /** Texts that differ only in commas for newlines are tracked alike. */
  lemma {:induction false} SameTrack(p: Spot, a: string, b: string)
    requires |a| == |b| && forall i :: 0 <= i < |a| ==> a[i] == b[i] || (a[i] == '\n' && b[i] == ',')
    ensures Track(p, a) == Track(p, b)
    decreases |a|
  {
    if a != "" {
      SameTrack(Next(p, a[0]), a[1..], b[1..]);
    }
  }

  lemma RepairTrack(t: string, n: nat)
    requires n <= |t|
    ensures |Repair(t)| == |t| && Track(Open(0), t[..n]) == Track(Open(0), Repair(t)[..n])
  {
    RepairPointwise(t);
    SameTrack(Open(0), t[..n], Repair(t)[..n]);
  }

  /** The replacement leaves the first item alone: any comma made in it would stand outside of all brackets. */
  lemma FirstItemKept(t: string, x: string)
    requires x <= Repair(t) && Level(0, x) && TopBoundaries(t)
    ensures |x| <= |t| && t[..|x|] == x
  {
    RepairPointwise(t);
    forall i | 0 <= i < |x| ensures t[i] == x[i] {
      RepairTrack(t, i);
      assert x[i] == Repair(t)[i] && x[..i] == Repair(t)[..i];
    }
  }

  function ChunksOf(es: Elements): seq<Chunk> {
    match es
    case LastItem(e) => [Chunk(Render(e.value), e.after)]
    case Item(e, tail) => [Chunk(Render(e.value), "\n")] + ChunksOf(tail)
  }

  predicate ObjectItems(es: Elements) {
    (es.e.value.Object? || es.e.value.EmptyObject?) && (es.Item? ==> ObjectItems(es.tail))
  }

  lemma {:induction false} ChunksAreStream(es: Elements)
    requires LegalElements(es) && ObjectItems(es)
    ensures IsStream(ChunksOf(es)) && ChunksOf(es) != []
    ensures forall i :: 0 <= i < |ChunksOf(es)| - 1 ==> ChunksOf(es)[i].gap == "\n"
    decreases es
  {
    RenderedObject(es.e.value);
    if es.Item? {
      ChunksAreStream(es.tail);
      assert ChunksOf(es)[1..] == ChunksOf(es.tail);
    }
  }

  lemma RenderedObject(v: Value)
    requires Legal(v) && (v.Object? || v.EmptyObject?)
    ensures IsObjectText(Render(v))
  {
    ValueExact(v, "");
    assert Render(v) + "" == Render(v);
  }

  /** Where the next item begins, the text had a boundary. */
  lemma FirstCut(t: string, x: string, rest: string)
    requires Repair(t) == x + "," + rest && Level(0, x) && NoTopComma(t) && TopBoundaries(t)
    ensures |t| == |x| + 1 + |rest| && t[..|x|] == x && Hit(t, |x| - 1)
    ensures t == x + "\n" + t[|x| + 1..] && Repair(t[|x| + 1..]) == rest
  {
    var n := |x|;
    FirstItemKept(t, x);
    RepairPointwise(t);
    RepairTrack(t, n);
    assert Repair(t)[n] == ',' && Repair(t)[..n] == x;
    assert Hit(t, n - 1);
    var b := t[n + 1..];
    assert t == x + "\n" + b;
    assert x[|x| - 1] == '}' && b[0] == '{';
    RepairConcat(x, b);
    RepairPointwise(x);
    assert |Repair(x)| == |x|;
    assert Repair(t)[n + 1..] == Repair(b) && Repair(t)[n + 1..] == rest;
  }

  /** What follows the first item passes the scans too. */
  lemma TailScans(x: string, b: string)
    requires Level(0, x) && NoTopComma(x + "\n" + b) && TopBoundaries(x + "\n" + b)
    ensures NoTopComma(b) && TopBoundaries(b)
  {
    var a := x + "\n";
    var t := a + b;
    TrackConcat(Open(0), x, "\n");
    TrackOne(Open(0), '\n');
    forall i | 0 <= i <= |b| ensures Track(Open(0), t[..|a| + i]) == Track(Open(0), b[..i]) {
      assert t[..|a| + i] == a + b[..i];
      TrackConcat(Open(0), a, b[..i]);
    }
    forall i | 0 <= i < |b| && b[i] == ',' ensures Track(Open(0), b[..i]) != Open(0) {
      assert t[|a| + i] == ',';
    }
    forall i | 0 <= i < |b| && Hit(b, i) ensures Track(Open(0), b[..i + 1]) == Open(0) {
      HitLater(a, b, |a| + i);
      assert Track(Open(0), t[..|a| + (i + 1)]) == Track(Open(0), b[..i + 1]);
    }
  }

  /** A legal element that does not end in layout has none after it, and one that does not begin with it has none before. */
  lemma NoLayoutBeside(e: Element)
    requires LegalElement(e)
    ensures RenderElement(e) != ""
    ensures !IsLayout(RenderElement(e)[|RenderElement(e)| - 1]) ==> e.after == ""
    ensures !IsLayout(RenderElement(e)[0]) ==> e.before == ""
  {
    ValueStart(e.value);
    var x := RenderElement(e);
    if e.after != "" {
      assert x[|x| - 1] == e.after[|e.after| - 1];
    }
    if e.before != "" {
      assert x[0] == e.before[0];
    }
  }

  /** If the rewritten text has the given items, the text itself has them with newlines between. */
  lemma {:induction false} ItemsAreBody(t: string, es: Elements)
    requires Repair(t) == RenderElements(es) && LegalElements(es)
    requires NoTopComma(t) && TopBoundaries(t)
    ensures t == es.e.before + Body(ChunksOf(es))
    decreases es
  {
    match es
    case LastItem(e) =>
      LastIsBody(t, e);
    case Item(e, tail) =>
      var b := FirstOff(t, e, tail);
      var rest := Body(ChunksOf(tail));
      assert b == rest by {
        ItemsAreBody(b, tail);
        assert "" + rest == rest;
      }
      assert t == e.before + Body(ChunksOf(es)) by { FirstChunk(e, tail); }
  }

  lemma LastIsBody(t: string, e: Element)
    requires Repair(t) == RenderElement(e) && LegalElement(e) && TopBoundaries(t)
    ensures t == e.before + Body([Chunk(Render(e.value), e.after)])
  {
    TrackElement(0, e);
    FirstItemKept(t, RenderElement(e));
    RepairPointwise(t);
    OneChunk(e);
  }

  /** What is left of the text after its first item and a newline. */
  lemma FirstOff(t: string, e: Element, tail: Elements) returns (b: string)
    requires Repair(t) == RenderElement(e) + "," + RenderElements(tail) && LegalElement(e) && LegalElements(tail)
    requires NoTopComma(t) && TopBoundaries(t)
    ensures t == RenderElement(e) + "\n" + b && Repair(b) == RenderElements(tail)
    ensures NoTopComma(b) && TopBoundaries(b)
    ensures e.after == "" && tail.e.before == ""
  {
    var x := RenderElement(e);
    TrackElement(0, e);
    FirstCut(t, x, RenderElements(tail));
    b := t[|x| + 1..];
    TailScans(x, b);
    ItemBeside(t, e, b);
    TailStart(b, tail);
  }

  lemma ItemBeside(t: string, e: Element, b: string)
    requires LegalElement(e) && t == RenderElement(e) + "\n" + b && Hit(t, |RenderElement(e)| - 1)
    ensures e.after == "" && b != "" && b[0] == '{'
  {
    var x := RenderElement(e);
    NoLayoutBeside(e);
    assert x[|x| - 1] == t[|x| - 1] && b[0] == t[|x| + 1];
  }

  lemma FirstChunk(e: Element, tail: Elements)
    requires e.after == ""
    ensures RenderElement(e) + "\n" + Body(ChunksOf(tail)) == e.before + Body(ChunksOf(Item(e, tail)))
  {
    var value, rest := Render(e.value), Body(ChunksOf(tail));
    assert ChunksOf(Item(e, tail))[1..] == ChunksOf(tail);
    assert RenderElement(e) == e.before + value;
    assert e.before + value + "\n" + rest == e.before + (value + "\n" + rest);
  }

  lemma OneChunk(e: Element)
    ensures RenderElement(e) == e.before + Body([Chunk(Render(e.value), e.after)])
  {
    var chunks := [Chunk(Render(e.value), e.after)];
    assert chunks[1..] == [] && Body(chunks) == Render(e.value) + e.after + "";
  }

  lemma TailStart(b: string, es: Elements)
    requires Repair(b) == RenderElements(es) && LegalElements(es) && b != "" && b[0] == '{'
    ensures es.e.before == ""
  {
    RepairPointwise(b);
    NoLayoutBeside(es.e);
    assert RenderElements(es)[0] == RenderElement(es.e)[0];
  }

  // ---------- from the text without spaces to the file ----------

  /** Layout and objects in a text without its spaces are layout and objects in the text, if no token is broken. */
  lemma {:induction false} BodyKept(s: string, cs: seq<Chunk>) returns (chunks: seq<Chunk>)
    requires Unbroken(s) && StripSpaces(s) == Body(cs) && IsStream(cs) && (s != "" ==> s[0] != ' ')
    ensures IsStream(chunks) && s == Body(chunks) && |chunks| == |cs|
    ensures forall i :: 0 <= i < |cs| ==> StripSpaces(chunks[i].gap) == cs[i].gap
    decreases |cs|
  {
    if cs == [] {
      chunks := [];
      NothingStripped(s);
    } else {
      var x, gap, rest := FirstKept(s, cs);
      var tail := BodyKept(rest, cs[1..]);
      chunks := [Chunk(x, gap)] + tail;
      assert chunks[1..] == tail;
      forall i | 0 <= i < |cs| ensures StripSpaces(chunks[i].gap) == cs[i].gap {
        assert i > 0 ==> chunks[i] == tail[i - 1] && cs[i] == cs[1..][i - 1];
      }
    }
  }

  lemma NothingStripped(s: string)
    requires StripSpaces(s) == "" && (s != "" ==> s[0] != ' ')
    ensures s == ""
  {
    if s != "" {
      StripHead(s);
    }
  }

  lemma FirstKept(s: string, cs: seq<Chunk>) returns (x: string, gap: string, rest: string)
    requires Unbroken(s) && StripSpaces(s) == Body(cs) && IsStream(cs) && cs != [] && (s != "" ==> s[0] != ' ')
    ensures s == x + gap + rest && IsObjectText(x) && AllLayout(gap)
    ensures StripSpaces(gap) == cs[0].gap && StripSpaces(rest) == Body(cs[1..])
    ensures Unbroken(rest) && (rest != "" ==> rest[0] != ' ')
  {
    var after: string;
    x, after := ObjectKeptFirst(s, cs);
    if |cs| > 1 {
      BodyStart(cs[1..]);
    }
    gap, rest := GapKept(after, cs[0].gap, Body(cs[1..]));
    assert x + gap + rest == x + (gap + rest);
  }

  lemma ObjectKeptFirst(s: string, cs: seq<Chunk>) returns (x: string, after: string)
    requires Unbroken(s) && StripSpaces(s) == Body(cs) && IsStream(cs) && cs != [] && (s != "" ==> s[0] != ' ')
    ensures s == x + after && IsObjectText(x)
    ensures StripSpaces(after) == cs[0].gap + Body(cs[1..]) && Unbroken(after)
  {
    FirstObject(cs);
    BodyStart(cs);
    StripChars(s);
    StripHead(s);
    ValueKept(s);
    var v := ParseValue(s).v;
    x, after := Render(v), ParseValue(s).rest;
    ValueStart(v);
    assert x[0] == s[0] == '{';
    RenderedObject(v);
  }

  lemma FirstObject(cs: seq<Chunk>)
    requires IsStream(cs) && cs != []
    ensures ParseValue(Body(cs)).Got? && ParseValue(Body(cs)).rest == cs[0].gap + Body(cs[1..])
  {
    var x, u := cs[0].text, cs[0].gap + Body(cs[1..]);
    ObjectText(x);
    assert Body(cs) == x + u;
    assert EndsNumber(u) by {
      if |cs| > 1 {
        BodyStart(cs[1..]);
      }
    }
    ValueExact(ParseValue(x).v, u);
  }

  lemma GapKept(s: string, gap': string, body: string) returns (gap: string, rest: string)
    requires Unbroken(s) && StripSpaces(s) == gap' + body && AllLayout(gap') && (body == "" || body[0] == '{')
    ensures s == gap + rest && AllLayout(gap) && StripSpaces(gap) == gap' && StripSpaces(rest) == body
    ensures Unbroken(rest) && (rest != "" ==> rest[0] != ' ')
  {
    gap := LayoutRun(s);
    rest := s[|gap|..];
    LayoutKept(Between, s);
    LayoutRunExact(gap', body);
  }

  /** A text without broken tokens that is a stream without its spaces is a catalog. */
  lemma StrippedCatalog(data: string, lead': string, cs: seq<Chunk>)
    requires Unbroken(data) && StripSpaces(data) == lead' + Body(cs) && AllLayout(lead') && IsStream(cs)
    requires forall i :: 0 <= i < |cs| - 1 ==> cs[i].gap == "\n"
    ensures IsCatalog(data)
  {
    if cs != [] {
      BodyStart(cs);
    }
    var lead, s := GapKept(data, lead', Body(cs));
    var chunks := BodyKept(s, cs);
    assert IsCatalogOf(data, lead, chunks);
  }

  // ---------- which files that are read are streams ----------

  lemma ReadIsArray(data: string) returns (v: Value)
    requires ReadObjects(data).Some?
    ensures Legal(v) && Render(v) == Rewrite(data) && Meaning(v) == JArray(ReadObjects(data).value)
  {
    var text := Rewrite(data);
    var e := ParseText(text).v;
    v := e.value;
    assert text[0] == '[' && text[|text| - 1] == ']';
    ParseTextExact(text, e);
    NoLayoutBeside(e);
    assert text == "" + Render(v) + "";
  }

  lemma BracketsOff(a: string, b: string)
    requires "[" + a + "]" == "[" + b + "]"
    ensures a == b
  {
    assert ("[" + a + "]")[1..|a| + 1] == a && ("[" + b + "]")[1..|b| + 1] == b;
  }

  lemma {:induction false} ObjectsAreItems(es: Elements)
    requires AllObjects(Meanings(es))
    ensures ObjectItems(es)
    decreases es
  {
    assert Meanings(es)[0] == Meaning(es.e.value);
    if es.Item? {
      assert Meanings(es)[1..] == Meanings(es.tail);
      ObjectsAreItems(es.tail);
    }
  }

  /** The items of the rewritten text, if all are objects, are those of a stream without its spaces. */
  lemma ScannedItems(t: string, items: Elements)
    requires Repair(t) == RenderElements(items) && LegalElements(items) && AllObjects(Meanings(items))
    requires NoTopComma(t) && TopBoundaries(t)
    ensures var cs := ChunksOf(items);
            && t == items.e.before + Body(cs) && AllLayout(items.e.before) && IsStream(cs)
            && forall i :: 0 <= i < |cs| - 1 ==> cs[i].gap == "\n"
  {
    ItemsAreBody(t, items);
    ObjectsAreItems(items);
    ChunksAreStream(items);
  }

  lemma ScannedLayout(t: string, gap: string)
    requires Repair(t) == gap && AllLayout(gap) && TopBoundaries(t)
    ensures t == gap + Body([])
  {
    TrackLayout(0, gap);
    FirstItemKept(t, gap);
    RepairPointwise(t);
  }

  lemma ScannedIsCatalog(data: string)
    requires ReadObjects(data).Some? && AllObjects(ReadObjects(data).value)
    requires Unbroken(data) && NoTopComma(StripSpaces(data)) && TopBoundaries(StripSpaces(data))
    ensures IsCatalog(data)
  {
    var t := StripSpaces(data);
    var v := ReadIsArray(data);
    var r := Repair(t);
    if v.EmptyArray? {
      BracketsOff(r, v.gap);
      ScannedLayout(t, v.gap);
      StrippedCatalog(data, v.gap, []);
    } else {
      assert v.Array?;
      BracketsOff(r, RenderElements(v.items));
      ScannedItems(t, v.items);
      StrippedCatalog(data, v.items.e.before, ChunksOf(v.items));
    }
  }

  /**
    A file that the program reads was a stream of JSON objects, one newline
    between each and the next, if and only if no space stands inside a token,
    no comma stands outside of all brackets, every boundary that the rewrite
    replaces is outside of all brackets, and what is read are objects.
  */
  lemma CatalogExactly(data: string)
    requires ReadObjects(data).Some?
    ensures IsCatalog(data) <==>
            && Unbroken(data)
            && NoTopComma(StripSpaces(data))
            && TopBoundaries(StripSpaces(data))
            && AllObjects(ReadObjects(data).value)
  {
    if IsCatalog(data) {
      var lead, chunks :| IsCatalogOf(data, lead, chunks);
      CatalogScans(data, lead, chunks);
    }
    if Unbroken(data) && NoTopComma(StripSpaces(data)) && TopBoundaries(StripSpaces(data))
       && AllObjects(ReadObjects(data).value) {
      ScannedIsCatalog(data);
    }
  }

  // ---------- files that are read and are no streams ----------

  /** A file whose rewritten text is a list of legal items is read as these. */
  lemma ItemsAreRead(data: string, es: Elements)
    requires Repair(StripSpaces(data)) == RenderElements(es) && LegalElements(es)
    ensures ReadObjects(data) == Some(Meanings(es))
  {
    var e := Element("", Array(es), "");
    assert RenderElement(e) == "" + Rewrite(data) + "" == Rewrite(data);
    ParseTextExact(Rewrite(data), e);
  }

  /** Legal items hold no boundary, so the replacement leaves them alone. */
  lemma ItemsUnrepaired(es: Elements)
    requires LegalElements(es)
    ensures Repair(RenderElements(es)) == RenderElements(es)
  {
    ScanElements(es);
    ScanExact(0, RenderElements(es));
    RepairLeavesNone(RenderElements(es));
  }

  lemma StripItems(es: Elements)
    requires LegalElements(es)
    ensures ReadObjects(RenderElements(es)) == Some(DropAll(Meanings(es)))
  {
    StripRenderElements(es);
    StripMeanings(es);
    ItemsUnrepaired(StripElements(es));
    ItemsAreRead(RenderElements(es), StripElements(es));
  }

  /** Newlines and commas are alike to the scan for broken tokens. */
  lemma SameWalk(a: string, b: string)
    requires Unbroken(a + "," + b)
    ensures Unbroken(a + "\n" + b)
  {
    var m := Walk(Between, a);
    WalkConcat3(Between, a, ",", b);
    WalkConcat3(Between, a, "\n", b);
    WalkOne(m, ',');
    WalkOne(m, '\n');
  }

  /** A newline stands for the comma between two braces somewhere inside an object, in an array or in a string. */
  predicate NewlineForComma(a: string, b: string) {
    a != "" && a[|a| - 1] == '}' && b != "" && b[0] == '{' && IsObjectText(a + "," + b)
  }

  lemma StripNewlineForComma(a: string, b: string)
    requires NewlineForComma(a, b)
    ensures NewlineForComma(StripSpaces(a), StripSpaces(b))
    ensures StripSpaces(a + "," + b) == StripSpaces(a) + "," + StripSpaces(b)
    ensures StripSpaces(a + "\n" + b) == StripSpaces(a) + "\n" + StripSpaces(b)
  {
    StripObject(a + "," + b);
    assert StripSpaces(a + "," + b) == StripSpaces(a) + "," + StripSpaces(b) by {
      StripMark(',');
      StripConcat3(a, ",", b);
    }
    assert StripSpaces(a + "\n" + b) == StripSpaces(a) + "\n" + StripSpaces(b) by {
      StripMark('\n');
      StripConcat3(a, "\n", b);
    }
    StripHead(b);
    StripLast(a);
  }

  lemma StripLast(a: string)
    requires a != "" && a[|a| - 1] != ' '
    ensures StripSpaces(a) != "" && StripSpaces(a)[|StripSpaces(a)| - 1] == a[|a| - 1]
  {
    var c := a[|a| - 1];
    StripMark(c);
    StripConcat(a[..|a| - 1], [c]);
    assert a == a[..|a| - 1] + [c];
  }

  /** The replacement makes the newline the comma that is missing. */
  lemma NewlineRepaired(a: string, b: string)
    requires NewlineForComma(a, b)
    ensures Repair(a + "\n" + b) == a + "," + b == Repair(a + "," + b)
  {
    var z := a + "," + b;
    assert NoHit(z) by { ObjectText(z); }
    HitsInside(a, ",", b);
    RepairLeavesNone(z);
    RepairLeavesNone(a);
    RepairLeavesNone(b);
    RepairConcat(a, b);
  }

  lemma HitsInside(a: string, mark: string, b: string)
    requires NoHit(a + mark + b)
    ensures NoHit(a) && NoHit(b)
  {
    var z := a + mark + b;
    forall i ensures !Hit(a, i) {
      assert Hit(a, i) ==> Hit(z, i);
    }
    forall i ensures !Hit(b, i) {
      HitLater(a + mark, b, |a + mark| + i);
    }
  }

  lemma NewlineScans(a: string, b: string)
    requires NewlineForComma(a, b)
    ensures !TopBoundaries(a + "\n" + b)
  {
    var s, z := a + "\n" + b, a + "," + b;
    TextLevel(z);
    assert z[|a|] == ',' && z[..|a|] == a;
    assert Hit(s, |a| - 1) && s[..|a| - 1 + 1] == a;
  }

  /**
    Any object with a newline for a comma between a closing and an opening
    brace, at any depth, is no JSON text and no stream, holds no broken token,
    and is read as if the comma were there.
  */
  lemma NewlineForCommaIsRead(a: string, b: string)
    requires NewlineForComma(a, b)
    ensures var data := a + "\n" + b;
            && ReadObjects(data) == ReadObjects(a + "," + b) == Some([DropSpaces(ObjectDoc(a + "," + b))])
            && ParseText(data) == Fail && !IsCatalog(data)
            && Unbroken(data)
  {
    var data, z := a + "\n" + b, a + "," + b;
    NewlineIsRead(a, b);
    assert Unbroken(data) by {
      ObjectParses(z);
      ValidIsUnbroken(z);
      SameWalk(a, b);
    }
    assert ParseText(data) == Fail by {
      assert Hit(data, |a| - 1);
      if ParseText(data).Got? {
        NoBoundaryInside(data);
      }
    }
    assert !TopBoundaries(StripSpaces(data)) by {
      StripNewlineForComma(a, b);
      NewlineScans(StripSpaces(a), StripSpaces(b));
    }
    CatalogExactly(data);
  }

  lemma NewlineIsRead(a: string, b: string)
    requires NewlineForComma(a, b)
    ensures ReadObjects(a + "\n" + b) == ReadObjects(a + "," + b)
    ensures ReadObjects(a + "," + b) == Some([DropSpaces(ObjectDoc(a + "," + b))])
  {
    var z := a + "," + b;
    StripNewlineForComma(a, b);
    NewlineRepaired(StripSpaces(a), StripSpaces(b));
    OneObjectRead(z);
  }

  lemma OneObjectRead(x: string)
    requires IsObjectText(x)
    ensures ReadObjects(x) == Some([DropSpaces(ObjectDoc(x))])
  {
    ObjectText(x);
    OneValueRead(ParseValue(x).v);
  }

  /** A file that is one value of any kind is read as that value. */
  lemma OneValueRead(v: Value)
    requires Legal(v)
    ensures ReadObjects(Render(v)) == Some([DropSpaces(Meaning(v))])
  {
    var es := LastItem(Element("", v, ""));
    assert RenderElements(es) == "" + Render(v) + "" == Render(v);
    StripItems(es);
    assert Meanings(es) == [Meaning(v)];
    assert DropAll([Meaning(v)]) == [DropSpaces(Meaning(v))];
  }

  function Pair(v: Value, w: Value): Elements {
    Item(Element("", v, ""), LastItem(Element("", w, "")))
  }

  lemma PairFacts(v: Value, w: Value)
    requires Legal(v) && Legal(w)
    ensures LegalElements(Pair(v, w))
    ensures RenderElements(Pair(v, w)) == Render(v) + "," + Render(w)
    ensures Meanings(Pair(v, w)) == [Meaning(v), Meaning(w)]
  {
    var e, last := Element("", v, ""), Element("", w, "");
    assert RenderElement(e) == "" + Render(v) + "" == Render(v);
    assert RenderElement(last) == "" + Render(w) + "" == Render(w);
    assert Meanings(LastItem(last)) == [Meaning(w)];
    assert [Meaning(v)] + [Meaning(w)] == [Meaning(v), Meaning(w)];
  }

  /** Objects separated by a comma are read, but are no stream. */
  lemma CommaSeparatedIsRead(x: string, y: string)
    requires IsObjectText(x) && IsObjectText(y)
    ensures var data := x + "," + y;
            && ReadObjects(data) == Some([DropSpaces(ObjectDoc(x)), DropSpaces(ObjectDoc(y))])
            && !IsCatalog(data)
  {
    ObjectText(x);
    ObjectText(y);
    PairIsRead(ParseValue(x).v, ParseValue(y).v);
    CommaScans(x, y);
    CatalogExactly(x + "," + y);
  }

  lemma PairIsRead(v: Value, w: Value)
    requires Legal(v) && Legal(w)
    ensures ReadObjects(Render(v) + "," + Render(w)) == Some([DropSpaces(Meaning(v)), DropSpaces(Meaning(w))])
  {
    PairFacts(v, w);
    StripItems(Pair(v, w));
    assert DropAll([Meaning(v), Meaning(w)]) == [DropSpaces(Meaning(v)), DropSpaces(Meaning(w))];
  }

  lemma CommaScans(x: string, y: string)
    requires IsObjectText(x) && IsObjectText(y)
    ensures !NoTopComma(StripSpaces(x + "," + y))
  {
    var a, t := StripSpaces(x), StripSpaces(x + "," + y);
    StripMark(',');
    StripConcat3(x, ",", y);
    StripObject(x);
    TextLevel(a);
    assert t[|a|] == ',' && t[..|a|] == a;
  }

  /** A value that is not an object is read, but is no stream. */
  lemma OtherValueIsRead(v: Value)
    requires Legal(v) && !Meaning(v).JObject?
    ensures ReadObjects(Render(v)) == Some([DropSpaces(Meaning(v))]) && !IsCatalog(Render(v))
  {
    OneValueRead(v);
    var ds := [DropSpaces(Meaning(v))];
    assert !ds[0].JObject?;
    CatalogExactly(Render(v));
  }

  // ---------- where such a newline can stand ----------

  function OneMember(key: seq<Piece>, v: Value): Value {
    Object(LastMember(Member("", key, "", Element("", v, ""))))
  }

  /** The text of an object with one member and no layout. */
  lemma OneMemberText(key: seq<Piece>, v: Value)
    requires LegalPieces(key) && Legal(v)
    ensures IsObjectText(Render(OneMember(key, v)))
    ensures Render(OneMember(key, v)) == "{" + ("\"" + RenderPieces(key) + ":" + Render(v)) + "}"
  {
    var e := Element("", v, "");
    var m := Member("", key, "", e);
    assert LegalMember(m);
    RenderedObject(OneMember(key, v));
    assert RenderElement(e) == "" + Render(v) + "" == Render(v);
    assert RenderMember(m) == "" + "\"" + RenderPieces(key) + "" + ":" + RenderElement(e);
    NoLayout("\"", RenderPieces(key), ":", Render(v));
    assert RenderMembers(LastMember(m)) == RenderMember(m);
  }

  lemma NoLayout(quote: string, key: string, colon: string, e: string)
    ensures "" + quote + key + "" + colon + e == quote + key + colon + e
  {
    assert "" + quote + key + "" == quote + key;
  }

  /** Two objects of an array, at any key. */
  lemma ArrayWithoutComma(key: seq<Piece>, x: string, y: string)
    requires LegalPieces(key) && IsObjectText(x) && IsObjectText(y)
    ensures NewlineForComma("{" + ("\"" + RenderPieces(key)) + ":" + "[" + x, y + "]" + "}")
  {
    var v, w := ParseValue(x).v, ParseValue(y).v;
    ObjectText(x);
    ObjectText(y);
    PairFacts(v, w);
    assert Render(Array(Pair(v, w))) == "[" + (x + "," + y) + "]";
    OneMemberText(key, Array(Pair(v, w)));
    Assemble("\"" + RenderPieces(key), x, y);
  }

  lemma Assemble(key: string, x: string, y: string)
    ensures "{" + (key + ":" + ("[" + (x + "," + y) + "]")) + "}" == ("{" + key + ":" + "[" + x) + "," + (y + "]" + "}")
  {
  }

  /** The inside of a string, which the newline makes illegal, at any key. */
  lemma NewlineInString(key: seq<Piece>, p: seq<Piece>, q: seq<Piece>)
    requires LegalPieces(key) && LegalPieces(p) && LegalPieces(q)
    ensures NewlineForComma("{" + (("\"" + RenderPieces(key)) + ":" + ("\"" + Pieces(p) + "}")), "{" + RenderPieces(q) + "}")
  {
    var marks := [Raw('}'), Raw(','), Raw('{')];
    var ps := p + (marks + q);
    PiecesJoin(p, marks + q);
    Braces(q);
    assert Render(Literal(ps)) == "\"" + (Pieces(p) + ("}" + "," + "{" + RenderPieces(q)));
    OneMemberText(key, Literal(ps));
    AssembleString("\"" + RenderPieces(key), Pieces(p), RenderPieces(q));
  }

  /** Pieces without the closing quotation mark. */
  function Pieces(ps: seq<Piece>): string {
    if ps == [] then "" else RenderPiece(ps[0]) + Pieces(ps[1..])
  }

  lemma {:induction false} PiecesJoin(p: seq<Piece>, q: seq<Piece>)
    ensures RenderPieces(p + q) == Pieces(p) + RenderPieces(q)
    decreases |p|
  {
    if p == [] {
      assert p + q == q;
    } else {
      assert (p + q)[1..] == p[1..] + q;
      PiecesJoin(p[1..], q);
    }
  }

  lemma Braces(q: seq<Piece>)
    ensures RenderPieces([Raw('}'), Raw(','), Raw('{')] + q) == "}" + "," + "{" + RenderPieces(q)
  {
    var marks := [Raw('}'), Raw(','), Raw('{')];
    PiecesJoin(marks, q);
    assert marks[1..] == [Raw(','), Raw('{')] && marks[1..][1..] == [Raw('{')] && marks[1..][1..][1..] == [];
    assert Pieces(marks) == "}" + ("," + ("{" + ""));
  }

  lemma AssembleString(key: string, p: string, q: string)
    ensures "{" + (key + ":" + ("\"" + (p + ("}" + "," + "{" + q)))) + "}" ==
            ("{" + (key + ":" + ("\"" + p + "}"))) + "," + ("{" + q + "}")
  {
  }
}
