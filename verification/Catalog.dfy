/**
  Reading a catalog file (readOperatorCatalog, pkg/manifest/manifest.go:212-226):
  a stream of JSON objects, without commas or brackets, is rewritten as text
  into one JSON array and parsed.
*/
module Catalog {
  import opened Wrappers
  import opened Text
  import opened Json
  import opened JsonExact
  import opened Stripping
  import opened Boundary
  import opened Lexical

  /** Lines 219 and 220: the text handed to the JSON decoder. */
  function Rewrite(data: string): string {
    "[" + Repair(StripSpaces(data)) + "]"
  }

  /** The elements of a text that is one JSON array. */
  function ArrayItems(text: string): Option<seq<Doc>> {
    match ParseText(text)
    case Fail => None
    case Got(e, _) =>
      var doc := Meaning(e.value);
      if doc.JArray? then Some(doc.items) else None
  }

  function ReadObjects(data: string): Option<seq<Doc>> {
    ArrayItems(Rewrite(data))
  }

  // ---------- streams of objects ----------

  /** An object text and the layout that follows it. */
  datatype Chunk = Chunk(text: string, gap: string)

  predicate IsObjectText(x: string) {
    var r := ParseValue(x);
    r.Got? && r.rest == "" && (r.v.EmptyObject? || r.v.Object?)
  }

  function ObjectDoc(x: string): Doc
    requires IsObjectText(x)
  {
    Meaning(ParseValue(x).v)
  }

  predicate IsStream(chunks: seq<Chunk>) {
    forall i :: 0 <= i < |chunks| ==> IsObjectText(chunks[i].text) && AllLayout(chunks[i].gap)
  }

  function Body(chunks: seq<Chunk>): string {
    if chunks == [] then "" else chunks[0].text + chunks[0].gap + Body(chunks[1..])
  }

  /** Every separator is, once its spaces are deleted, exactly one newline. */
  predicate NewlineSeparated(chunks: seq<Chunk>) {
    forall i :: 0 <= i < |chunks| - 1 ==> StripSpaces(chunks[i].gap) == "\n"
  }

  function StripChunks(chunks: seq<Chunk>): (r: seq<Chunk>)
    ensures |r| == |chunks|
    ensures forall i :: 0 <= i < |r| ==>
              r[i] == Chunk(StripSpaces(chunks[i].text), StripSpaces(chunks[i].gap))
  {
    seq(|chunks|, i requires 0 <= i < |chunks| =>
      Chunk(StripSpaces(chunks[i].text), StripSpaces(chunks[i].gap)))
  }

  function Docs(chunks: seq<Chunk>): (r: seq<Doc>)
    requires IsStream(chunks)
    ensures |r| == |chunks|
    ensures forall i :: 0 <= i < |r| ==> r[i] == ObjectDoc(chunks[i].text)
  {
    seq(|chunks|, i requires 0 <= i < |chunks| => ObjectDoc(chunks[i].text))
  }

  // ---------- object texts ----------

  lemma ObjectText(x: string)
    requires IsObjectText(x)
    ensures var v := ParseValue(x).v; Legal(v) && x == Render(v)
    ensures x != "" && x[0] == '{' && x[|x| - 1] == '}'
    ensures NoHit(x)
  {
    var v := ParseValue(x).v;
    assert x == Render(v) + "";
    ValueStart(v);
    ScanValue(v);
    ScanExact(0, x);
  }

  /** Deleting the spaces of an object text leaves an object text. */
  lemma StripObject(x: string)
    requires IsObjectText(x)
    ensures IsObjectText(StripSpaces(x))
    ensures ObjectDoc(StripSpaces(x)) == DropSpaces(ObjectDoc(x))
  {
    ObjectText(x);
    var v := ParseValue(x).v;
    StripRender(v);
    StripMeaning(v);
    ValueExact(StripValue(v), "");
    assert StripSpaces(x) + "" == StripSpaces(x);
  }

  lemma {:induction false} StripBody(chunks: seq<Chunk>)
    ensures StripSpaces(Body(chunks)) == Body(StripChunks(chunks))
  {
    if chunks != [] {
      StripConcat3(chunks[0].text, chunks[0].gap, Body(chunks[1..]));
      StripBody(chunks[1..]);
      assert StripChunks(chunks)[1..] == StripChunks(chunks[1..]);
    }
  }

  lemma StripStream(chunks: seq<Chunk>)
    requires IsStream(chunks)
    ensures IsStream(StripChunks(chunks))
    ensures Docs(StripChunks(chunks)) == DropAll(Docs(chunks))
    ensures NewlineSeparated(StripChunks(chunks)) <==> NewlineSeparated(chunks)
  {
    var cs := StripChunks(chunks);
    forall i | 0 <= i < |chunks|
      ensures IsObjectText(cs[i].text) && AllLayout(cs[i].gap)
      ensures ObjectDoc(cs[i].text) == DropSpaces(ObjectDoc(chunks[i].text))
      ensures StripSpaces(cs[i].gap) == cs[i].gap
    {
      StripObject(chunks[i].text);
      StripLayout(chunks[i].gap);
      StripChars(chunks[i].gap);
      StripChars(cs[i].gap);
    }
    assert IsStream(cs);
  }

  lemma StripWholeText(lead: string, chunks: seq<Chunk>)
    requires AllLayout(lead) && IsStream(chunks)
    ensures StripSpaces(lead + Body(chunks)) == StripSpaces(lead) + Body(StripChunks(chunks))
    ensures AllLayout(StripSpaces(lead)) && IsStream(StripChunks(chunks))
  {
    StripConcat(lead, Body(chunks));
    StripBody(chunks);
    StripLayout(lead);
    StripStream(chunks);
  }

  lemma StripWhole(lead: string, chunks: seq<Chunk>)
    requires AllLayout(lead) && IsStream(chunks)
    ensures StripSpaces(lead + Body(chunks)) == StripSpaces(lead) + Body(StripChunks(chunks))
    ensures AllLayout(StripSpaces(lead)) && IsStream(StripChunks(chunks))
    ensures Docs(StripChunks(chunks)) == DropAll(Docs(chunks))
    ensures (forall i :: 0 <= i < |chunks| - 1 ==> StripChunks(chunks)[i].gap == "\n") <==> NewlineSeparated(chunks)
  {
    StripWholeText(lead, chunks);
    StripStream(chunks);
  }

  // ---------- the boundaries of a stream ----------

  lemma BodyStart(chunks: seq<Chunk>)
    requires IsStream(chunks) && chunks != []
    ensures Body(chunks) != "" && Body(chunks)[0] == '{'
  {
    ObjectText(chunks[0].text);
  }

  /** An object and the layout after it form no boundary, alone or with what follows. */
  lemma ChunkSeam(c: Chunk, rest: string)
    requires IsObjectText(c.text) && AllLayout(c.gap)
    requires rest == "" || (rest[0] == '{' && c.gap != "\n")
    ensures NoHit(c.text + c.gap)
    ensures Seamless(c.text + c.gap, rest)
  {
    ObjectText(c.text);
    ScanValue(ParseValue(c.text).v);
    ScanConcat(0, c.text, c.gap);
    ScanLayout(Scan(0, c.text), c.gap);
    ScanExact(0, c.text + c.gap);
    GapSeam(c.text, c.gap, rest);
  }

  lemma GapSeam(x: string, gap: string, rest: string)
    requires x != "" && x[|x| - 1] == '}' && AllLayout(gap)
    requires rest == "" || (rest[0] == '{' && gap != "\n")
    ensures Seamless(x + gap, rest)
  {
    var a, s := x + gap, x + gap + rest;
    if |gap| == 0 {
      assert s[|a| - 1] == x[|x| - 1];
    } else if |gap| == 1 {
      assert gap == [gap[0]] && s[|a| - 1] == gap[0];
    } else {
      assert s[|a| - 2] == gap[|gap| - 2];
    }
  }

  /** The stream with every newline separator turned into a comma. */
  function Joined(chunks: seq<Chunk>): string {
    if chunks == [] then ""
    else
      var comma := |chunks| > 1 && chunks[0].gap == "\n";
      chunks[0].text + (if comma then "," else chunks[0].gap) + Joined(chunks[1..])
  }

  function NewlineGaps(chunks: seq<Chunk>): nat {
    if |chunks| < 2 then 0 else (if chunks[0].gap == "\n" then 1 else 0) + NewlineGaps(chunks[1..])
  }

  /** Textual replacement finds exactly the separators between top-level objects. */
  lemma {:induction false} RepairBody(chunks: seq<Chunk>)
    requires IsStream(chunks)
    ensures Repair(Body(chunks)) == Joined(chunks)
    ensures Count(Body(chunks)) == NewlineGaps(chunks)
  {
    if chunks != [] {
      var c, rest := chunks[0], Body(chunks[1..]);
      RepairBody(chunks[1..]);
      ObjectText(c.text);
      if |chunks| > 1 {
        BodyStart(chunks[1..]);
      }
      if |chunks| > 1 && c.gap == "\n" {
        RepairConcat(c.text, rest);
        RepairLeavesNone(c.text);
        CountNone(c.text);
      } else {
        var a := c.text + c.gap;
        ChunkSeam(c, rest);
        RepairSeam(a, rest);
        CountSeam(a, rest);
        RepairLeavesNone(a);
        CountNone(a);
      }
    }
  }

  lemma RepairLead(lead: string, s: string)
    requires AllLayout(lead)
    ensures Repair(lead + s) == lead + Repair(s)
    ensures Count(lead + s) == Count(s)
  {
    assert forall i :: 0 <= i < |lead| ==> lead[i] == (lead + s)[i];
    RepairSeam(lead, s);
    CountSeam(lead, s);
    RepairLeavesNone(lead);
    CountNone(lead);
  }

  // ---------- parsing the rewritten stream ----------

  predicate AllNewlines(chunks: seq<Chunk>) {
    |chunks| < 2 || (chunks[0].gap == "\n" && AllNewlines(chunks[1..]))
  }

  lemma {:induction false} AllNewlinesExact(chunks: seq<Chunk>)
    ensures AllNewlines(chunks) <==> forall i :: 0 <= i < |chunks| - 1 ==> chunks[i].gap == "\n"
    ensures chunks != [] && AllNewlines(chunks) ==> NewlineGaps(chunks) == |chunks| - 1
  {
    if |chunks| > 1 {
      AllNewlinesExact(chunks[1..]);
      assert forall i :: 1 <= i < |chunks| ==> chunks[i] == chunks[1..][i - 1];
    }
  }

  /** The array items of a stream whose separators are all single newlines. */
  function Items(lead: string, chunks: seq<Chunk>): Elements
    requires IsStream(chunks) && chunks != []
    decreases |chunks|
  {
    var v := ParseValue(chunks[0].text).v;
    if |chunks| == 1 then LastItem(Element(lead, v, chunks[0].gap))
    else Item(Element(lead, v, ""), Items("", chunks[1..]))
  }

  lemma {:induction false} ItemsMeaning(lead: string, chunks: seq<Chunk>)
    requires IsStream(chunks) && chunks != []
    ensures Meanings(Items(lead, chunks)) == Docs(chunks)
    decreases |chunks|
  {
    if |chunks| > 1 {
      ItemsMeaning("", chunks[1..]);
      assert Docs(chunks) == [Docs(chunks)[0]] + Docs(chunks[1..]);
    }
  }

  lemma JoinedStart(chunks: seq<Chunk>)
    requires IsStream(chunks) && chunks != []
    ensures Joined(chunks) != "" && Joined(chunks)[0] == '{'
  {
    ObjectText(chunks[0].text);
  }

  /**
    The items of the rewritten stream parse up to the closing bracket if every
    separator is a newline, and otherwise up to the object after the first
    separator that is not.
  */
  lemma {:induction false} ParseJoined(lead: string, chunks: seq<Chunk>)
    requires IsStream(chunks) && chunks != [] && AllLayout(lead)
    ensures var r := ParseElements(lead + Joined(chunks) + "]");
            if AllNewlines(chunks) then r == Got(Items(lead, chunks), "]")
            else r.Got? && r.rest != "" && r.rest[0] == '{'
    decreases |chunks|
  {
    var c := chunks[0];
    var v := ParseValue(c.text).v;
    ObjectText(c.text);
    JoinedCut(lead, chunks);
    if |chunks| == 1 {
      ParseFirst(lead, v, c.gap, "]");
    } else {
      var rest := Joined(chunks[1..]) + "]";
      JoinedStart(chunks[1..]);
      assert rest[0] == '{';
      if c.gap == "\n" {
        ParseJoined("", chunks[1..]);
        assert "" + Joined(chunks[1..]) == Joined(chunks[1..]);
        ParseFirst(lead, v, "", "," + rest);
        assert ("," + rest)[1..] == rest;
      } else {
        ParseFirst(lead, v, c.gap, rest);
      }
    }
  }

  /** The text of the joined stream, cut after the first object. */
  lemma JoinedCut(lead: string, chunks: seq<Chunk>)
    requires chunks != []
    ensures var c, s := chunks[0], lead + Joined(chunks) + "]";
            var rest := Joined(chunks[1..]) + "]";
            if |chunks| == 1 then s == lead + c.text + c.gap + "]"
            else if c.gap == "\n" then s == lead + c.text + "" + ("," + rest)
            else s == lead + c.text + c.gap + rest
  {
    var c, tail := chunks[0], Joined(chunks[1..]);
    if |chunks| == 1 {
      assert tail == "";
      assert c.text + c.gap + "" == c.text + c.gap;
      Regroup(lead, c.text, c.gap, "");
      assert "" + "]" == "]";
    } else if c.gap == "\n" {
      assert Joined(chunks) == c.text + "," + tail;
      Regroup(lead, c.text, ",", tail);
    } else {
      assert Joined(chunks) == c.text + c.gap + tail;
      Regroup(lead, c.text, c.gap, tail);
    }
  }

  lemma Regroup(a: string, b: string, c: string, d: string)
    ensures a + (b + c + d) + "]" == a + b + c + (d + "]")
    ensures a + b + c + (d + "]") == a + b + "" + (c + (d + "]"))
  {
  }

  /** The first item of a text, and what is then done with the text after it. */
  lemma ParseFirst(before: string, v: Value, after: string, rest: string)
    requires AllLayout(before) && Legal(v) && AllLayout(after) && EndsElement(rest) && rest != ""
    ensures var r := ParseElements(before + Render(v) + after + rest);
            var e := Element(before, v, after);
            if rest[0] != ',' then r == Got(LastItem(e), rest)
            else match ParseElements(rest[1..])
              case Fail => r == Fail
              case Got(tail, rest') => r == Got(Item(e, tail), rest')
  {
    ElementExact(Element(before, v, after), rest);
  }

  /** An array text is read exactly if its items parse up to the closing bracket. */
  lemma ParseBracketed(lead: string, chunks: seq<Chunk>)
    requires IsStream(chunks) && AllLayout(lead)
    ensures ArrayItems("[" + (lead + Joined(chunks)) + "]") ==
            if AllNewlines(chunks) then Some(Docs(chunks)) else None
  {
    var inner := lead + Joined(chunks) + "]";
    Enclosed(lead + Joined(chunks));
    BracketItems(inner);
    if chunks == [] {
      assert ParseArray(inner) == Got(EmptyArray(lead), "") by {
        assert inner == lead + "]" + "";
        EmptyExact(lead, "");
      }
    } else {
      assert ParseArray(inner) == if AllNewlines(chunks) then Got(Array(Items(lead, chunks)), "") else Fail by {
        ParseItems(lead, chunks);
      }
      ItemsMeaning(lead, chunks);
    }
  }

  lemma Enclosed(s: string)
    ensures "[" + s + "]" == ['['] + (s + "]")
  {
  }

  lemma BracketItems(inner: string)
    ensures match ParseArray(inner)
            case Fail => ArrayItems(['['] + inner) == None
            case Got(v, rest) =>
              rest == "" && Meaning(v).JArray? ==> ArrayItems(['['] + inner) == Some(Meaning(v).items)
  {
    Dispatch('[', inner);
    WholeText(['['] + inner);
  }

  lemma WholeText(text: string)
    requires text != "" && text[0] == '['
    ensures match ParseValue(text)
            case Fail => ParseText(text) == Fail
            case Got(v, rest) => rest == "" ==> ParseText(text) == Got(Element("", v, ""), "")
  {
    assert LayoutRun(text) == "" && text[0..] == text;
    assert LayoutRun("") == "" && ""[0..] == "";
  }

  lemma ParseItems(lead: string, chunks: seq<Chunk>)
    requires IsStream(chunks) && chunks != [] && AllLayout(lead)
    ensures ParseArray(lead + Joined(chunks) + "]") ==
            if AllNewlines(chunks) then Got(Array(Items(lead, chunks)), "") else Fail
  {
    var rest := Joined(chunks) + "]";
    var s := lead + Joined(chunks) + "]";
    assert LayoutRun(s) == lead && s[|lead|..] == rest && rest[0] == '{' by {
      JoinedStart(chunks);
      assert s == lead + rest;
      LayoutRunExact(lead, rest);
    }
    ParseJoined(lead, chunks);
  }

  /**
    What is read of objects that are valid once their spaces are deleted,
    joined by separators of layout only, with layout around the whole.
  */
  lemma LooseStreamRead(lead: string, chunks: seq<Chunk>)
    requires AllLayout(lead) && IsStream(StripChunks(chunks))
    ensures ReadObjects(lead + Body(chunks)) ==
            if NewlineSeparated(chunks) then Some(Docs(StripChunks(chunks))) else None
  {
    var lead', cs := StripSpaces(lead), StripChunks(chunks);
    assert StripSpaces(lead + Body(chunks)) == lead' + Body(cs) by {
      StripConcat(lead, Body(chunks));
      StripBody(chunks);
    }
    StripLayout(lead);
    RepairLead(lead', Body(cs));
    RepairBody(cs);
    ParseBracketed(lead', cs);
    AllNewlinesExact(cs);
  }

  /**
    Main result.  Take any JSON objects in any legal layout, joined by
    separators of layout only, with layout around the whole.  The catalog is
    read if and only if every separator, without its spaces, is exactly one
    newline; and what is read is then the objects in order, each without the
    raw spaces of its string literals.
  */
  lemma StreamRead(lead: string, chunks: seq<Chunk>)
    requires AllLayout(lead) && IsStream(chunks)
    ensures ReadObjects(lead + Body(chunks)) ==
            if NewlineSeparated(chunks) then Some(DropAll(Docs(chunks))) else None
  {
    StripStream(chunks);
    LooseStreamRead(lead, chunks);
  }

  /**
    The rewrite accepts more than valid streams.  An object that is valid
    without its spaces is read in either case, but it was valid if and only if
    no space stands inside a word, a number or an escape of it.
  */
  lemma StrippingHidesErrors(lead: string, chunks: seq<Chunk>)
    requires AllLayout(lead) && IsStream(StripChunks(chunks)) && NewlineSeparated(chunks)
    ensures ReadObjects(lead + Body(chunks)) == Some(Docs(StripChunks(chunks)))
    ensures forall i :: 0 <= i < |chunks| ==> (ParseText(chunks[i].text).Got? <==> Unbroken(chunks[i].text))
  {
    LooseStreamRead(lead, chunks);
    BrokenChunks(chunks);
  }

  lemma BrokenChunks(chunks: seq<Chunk>)
    requires IsStream(StripChunks(chunks))
    ensures forall i :: 0 <= i < |chunks| ==> (ParseText(chunks[i].text).Got? <==> Unbroken(chunks[i].text))
  {
    forall i | 0 <= i < |chunks| ensures ParseText(chunks[i].text).Got? <==> Unbroken(chunks[i].text) {
      BrokenChunk(chunks, i);
    }
  }

  lemma BrokenChunk(chunks: seq<Chunk>, i: nat)
    requires IsStream(StripChunks(chunks)) && i < |chunks|
    ensures ParseText(chunks[i].text).Got? == Unbroken(chunks[i].text)
  {
    var x := chunks[i].text;
    assert IsObjectText(StripSpaces(x)) by { assert StripChunks(chunks)[i].text == StripSpaces(x); }
    BrokenObject(x);
  }

  lemma BrokenObject(x: string)
    requires IsObjectText(StripSpaces(x))
    ensures ParseText(x).Got? == Unbroken(x)
  {
    ObjectParses(StripSpaces(x));
    HiddenErrorsExactly(x);
  }

  lemma ObjectParses(x: string)
    requires IsObjectText(x)
    ensures ParseText(x) == Got(Element("", ParseValue(x).v, ""), "")
  {
    ObjectText(x);
    var e := Element("", ParseValue(x).v, "");
    assert RenderElement(e) == "" + x + "" == x;
    ParseTextExact(x, e);
  }

  /** The number of objects read is one more than the number of replacements made. */
  lemma StreamCount(lead: string, chunks: seq<Chunk>)
    requires AllLayout(lead) && IsStream(chunks) && chunks != []
    requires NewlineSeparated(chunks)
    ensures ReadObjects(lead + Body(chunks)).Some?
    ensures |ReadObjects(lead + Body(chunks)).value| == 1 + Count(StripSpaces(lead + Body(chunks)))
  {
    StreamRead(lead, chunks);
    var lead', cs := StripSpaces(lead), StripChunks(chunks);
    StripWhole(lead, chunks);
    RepairLead(lead', Body(cs));
    RepairBody(cs);
    AllNewlinesExact(cs);
  }

  // ---------- where the boundaries are ----------

  /** The position just after object k in a stream's body. */
  function EndOf(chunks: seq<Chunk>, k: nat): nat
    requires k < |chunks|
  {
    |Body(chunks[..k])| + |chunks[k].text|
  }

  /** Where object k of a stream meets the next one with only a newline between them. */
  predicate MeetsAt(chunks: seq<Chunk>, k: int, i: int) {
    0 <= k < |chunks| - 1 && chunks[k].gap == "\n" && i == EndOf(chunks, k) - 1
  }

  lemma FirstHit(c: Chunk, rest: string, i: int)
    requires IsObjectText(c.text) && AllLayout(c.gap)
    requires rest == "" || rest[0] == '{'
    ensures Hit(c.text + c.gap + rest, i) <==>
            (rest != "" && c.gap == "\n" && i == |c.text| - 1) || Hit(rest, i - |c.text + c.gap|)
  {
    var x, a := c.text, c.text + c.gap;
    var s := a + rest;
    HitLater(a, rest, i);
    ObjectText(x);
    if rest != "" && c.gap == "\n" {
      assert s[|x|] == '\n' && s[|x| + 1] == '{' && s[|x| - 1] == '}';
      assert i < |x| - 2 ==> (Hit(s, i) <==> Hit(x, i));
    } else {
      ChunkSeam(c, rest);
      assert i < |a| - 2 ==> (Hit(s, i) <==> Hit(a, i));
    }
  }

  lemma HitLater(a: string, b: string, i: int)
    ensures i >= |a| ==> (Hit(a + b, i) <==> Hit(b, i - |a|))
  {
    if |a| <= i && i + 3 <= |a + b| {
      var j := i - |a|;
      assert (a + b)[i] == b[j] && (a + b)[i + 1] == b[j + 1] && (a + b)[i + 2] == b[j + 2];
    }
  }

  ghost predicate Meets(chunks: seq<Chunk>, i: int) {
    exists k :: MeetsAt(chunks, k, i)
  }

  lemma MeetsLater(chunks: seq<Chunk>, k: int, i: int)
    requires chunks != [] && k > 0
    ensures MeetsAt(chunks, k, i) <==>
            MeetsAt(chunks[1..], k - 1, i - |chunks[0].text + chunks[0].gap|)
  {
    if k < |chunks| {
      assert chunks[..k][1..] == chunks[1..][..k - 1];
    }
  }

  lemma MeetsFirst(chunks: seq<Chunk>, i: int)
    requires chunks != []
    ensures Meets(chunks, i) <==>
            MeetsAt(chunks, 0, i) || Meets(chunks[1..], i - |chunks[0].text + chunks[0].gap|)
  {
    var tail, j := chunks[1..], i - |chunks[0].text + chunks[0].gap|;
    if Meets(tail, j) {
      var k :| MeetsAt(tail, k, j);
      MeetsLater(chunks, k + 1, i);
    }
    if k :| MeetsAt(chunks, k, i) && k != 0 {
      MeetsLater(chunks, k, i);
    }
  }

  /**
    In a stream's body the text `}\n{` occurs exactly where two top-level
    objects meet: never inside an object, and never across other layout.
  */
  lemma {:induction false} BoundaryPositions(chunks: seq<Chunk>, i: int)
    requires IsStream(chunks)
    ensures Hit(Body(chunks), i) <==> Meets(chunks, i)
    decreases |chunks|
  {
    if chunks != [] {
      var c, tail := chunks[0], chunks[1..];
      var j := i - |c.text + c.gap|;
      assert Hit(Body(chunks), i) <==> MeetsAt(chunks, 0, i) || Hit(Body(tail), j) by {
        HitFirst(chunks, i);
      }
      assert Hit(Body(tail), j) <==> Meets(tail, j) by {
        BoundaryPositions(tail, j);
      }
      MeetsFirst(chunks, i);
    }
  }

  lemma HitFirst(chunks: seq<Chunk>, i: int)
    requires IsStream(chunks) && chunks != []
    ensures Hit(Body(chunks), i) <==>
            MeetsAt(chunks, 0, i) || Hit(Body(chunks[1..]), i - |chunks[0].text + chunks[0].gap|)
  {
    var c, tail := chunks[0], chunks[1..];
    if tail != [] {
      BodyStart(tail);
    }
    FirstHit(c, Body(tail), i);
    assert chunks[..0] == [] && EndOf(chunks, 0) == |c.text|;
  }

  /** The same with layout before the first object. */
  lemma LeadBoundaryPositions(lead: string, chunks: seq<Chunk>, i: int)
    requires AllLayout(lead) && IsStream(chunks)
    ensures Hit(lead + Body(chunks), i) == Meets(chunks, i - |lead|)
  {
    HitAfterLead(lead, Body(chunks), i);
    BoundaryPositions(chunks, i - |lead|);
  }

  /** The same for the text that line 220 sees, the whole file without its spaces. */
  lemma StrippedBoundaryPositions(lead: string, chunks: seq<Chunk>, text: string, gap: string, cs: seq<Chunk>, i: int)
    requires AllLayout(lead) && IsStream(chunks)
    requires text == StripSpaces(lead + Body(chunks))
    requires gap == StripSpaces(lead) && cs == StripChunks(chunks)
    ensures Hit(text, i) == Meets(cs, i - |gap|)
  {
    assert text == gap + Body(cs) && AllLayout(gap) && IsStream(cs) by {
      StripWholeText(lead, chunks);
    }
    LeadBoundaryPositions(gap, cs, i);
  }

  lemma HitAfterLead(lead: string, b: string, i: int)
    requires AllLayout(lead)
    ensures Hit(lead + b, i) <==> Hit(b, i - |lead|)
  {
    HitLater(lead, b, i);
    if 0 <= i < |lead| {
      assert (lead + b)[i] == lead[i];
    }
  }
}
