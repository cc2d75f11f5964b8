/**
  What the listing shows of a catalog file: how the rewrite's deletion of
  spaces reaches the projected fields, files that are read and should not be,
  when a line shows a space, and how the listing can be read back.
*/
module ListingLaws {
  import opened Wrappers
  import opened Text
  import opened Json
  import opened JsonExact
  import opened Stripping
  import opened Boundary
  import opened Lexical
  import opened Decoding
  import opened Catalog
  import opened Listing
  import opened Projection
  import Streams
  import Log

  // ---------- the listing of a stream ----------

  /**
    End to end, for a stream of any objects: it is read exactly if every
    separator is one newline and no object is mistyped once the spaces in its
    keys are deleted.  The configurations read are then those objects' in order
    with the spaces of every string deleted, exactly if all literals projected
    are plain.  Where no key becomes a projected one, these are the original
    objects.
  */
  lemma StreamConfigs(lead: string, chunks: seq<Chunk>)
    requires AllLayout(lead) && IsStream(chunks)
    ensures var read, originals := ReadConfigs(lead + Body(chunks)), ToConfigs(MendAll(Docs(chunks)));
            && (read.Some? <==> NewlineSeparated(chunks) && originals.Some?)
            && (read.Some? ==> (read == Some(StripConfigs(originals.value))) == PlainDocs(Docs(chunks)))
    ensures StableDocs(Docs(chunks)) ==> ToConfigs(MendAll(Docs(chunks))) == ToConfigs(Docs(chunks))
  {
    var docs := Docs(chunks);
    StreamRead(lead, chunks);
    StripToConfigs(docs);
    if StableDocs(docs) {
      StableConfigs(docs);
    }
  }

  // ---------- a key with a space that becomes a projected one ----------

  function TwoMembers(k: seq<Piece>, v: Value, k': seq<Piece>, v': Value): Value {
    Object(NextMember(Member("", k, "", Element("", v, "")), LastMember(Member("", k', "", Element("", v', "")))))
  }

  lemma TwoMembersRead(k: seq<Piece>, v: Value, k': seq<Piece>, v': Value)
    requires LegalPieces(k) && Legal(v) && LegalPieces(k') && Legal(v')
    ensures var x := Render(TwoMembers(k, v, k', v'));
            && IsObjectText(x) && ObjectDoc(x) == JObject([Field(k, Meaning(v)), Field(k', Meaning(v'))])
            && ReadObjects(x) == Some([DropSpaces(ObjectDoc(x))])
  {
    var whole := TwoMembers(k, v, k', v');
    var x := Render(whole);
    assert LegalMember(whole.members.m) && LegalMember(whole.members.tail.m);
    Streams.RenderedObject(whole);
    ValueExact(whole, "");
    assert x + "" == x;
    assert FieldsOf(whole.members.tail) == [Field(k', Meaning(v'))];
    assert FieldsOf(whole.members) == [Field(k, Meaning(v))] + [Field(k', Meaning(v'))];
    assert [Field(k, Meaning(v))] + [Field(k', Meaning(v'))] == [Field(k, Meaning(v)), Field(k', Meaning(v'))];
    Streams.OneObjectRead(x);
  }

  function BundleNamed(k: seq<Piece>, ps: seq<Piece>): Value {
    TwoMembers(Raws("schema"), Literal(Raws("olm.bundle")), k, Literal(ps))
  }

  function NamedBundle(name: string): Config {
    Config("olm.bundle", name, "", [], "", "")
  }

  /**
    A bundle whose name is given under a key with a space in it, such as
    "na me", has no name, and is listed under that name.
  */
  lemma SpacedNameIsShown(k: seq<Piece>, ps: seq<Piece>)
    requires LegalPieces(k) && LegalPieces(ps) && Decode(StripPieces(k)) == "name" && Decode(k) != "name"
    ensures var x, name := Render(BundleNamed(k, ps)), Decode(StripPieces(ps));
            && IsObjectText(x) && ToConfig(ObjectDoc(x)) == Some(NamedBundle(""))
            && ReadConfigs(x) == Some([NamedBundle(name)]) && CatalogLines([NamedBundle(name)]) == [Log.Bundle(name)]
  {
    var x, name := Render(BundleNamed(k, ps)), Decode(StripPieces(ps));
    BundleNamedRead(k, ps);
    assert ToConfig(ObjectDoc(x)) == Some(NamedBundle("")) by {
      MendedIsUnknown(k, "name");
      BundleConfig(Bundle("schema", "olm.bundle", k, ps), Decode(k));
    }
    var read := JObject(Bundle("schema", "olm.bundle", StripPieces(k), StripPieces(ps)));
    assert ToConfig(read) == Some(NamedBundle(name)) by {
      BundleConfig(read.members, "name");
    }
    OneConfig(read);
    BundleLines(NamedBundle(name));
  }

  lemma BundleNamedRead(k: seq<Piece>, ps: seq<Piece>)
    requires LegalPieces(k) && LegalPieces(ps)
    ensures var x := Render(BundleNamed(k, ps));
            && IsObjectText(x) && ObjectDoc(x) == JObject(Bundle("schema", "olm.bundle", k, ps))
            && ReadObjects(x) == Some([JObject(Bundle("schema", "olm.bundle", StripPieces(k), StripPieces(ps)))])
  {
    BundleRead(k, ps, "schema", "olm.bundle");
  }

  lemma BundleLines(c: Config)
    requires c.schema == "olm.bundle"
    ensures CatalogLines([c]) == [Log.Bundle(c.name)]
  {
    var cs := [c];
    assert cs[1..] == [] && CatalogLines([]) == [];
  }

  /** Two members, the first spelled without escapes. */
  function Bundle(key: string, text: string, k: seq<Piece>, ps: seq<Piece>): seq<Field> {
    [Field(Raws(key), JString(Raws(text))), Field(k, JString(ps))]
  }

  predicate Printable(s: string) {
    ' ' !in s && LegalPieces(Raws(s))
  }

  lemma BundleRead(k: seq<Piece>, ps: seq<Piece>, key: string, text: string)
    requires LegalPieces(k) && LegalPieces(ps) && Printable(key) && Printable(text)
    ensures var x := Render(TwoMembers(Raws(key), Literal(Raws(text)), k, Literal(ps)));
            && IsObjectText(x) && ObjectDoc(x) == JObject(Bundle(key, text, k, ps))
            && ReadObjects(x) == Some([JObject(Bundle(key, text, StripPieces(k), StripPieces(ps)))])
  {
    TwoMembersRead(Raws(key), Literal(Raws(text)), k, Literal(ps));
    BundleDropped(k, ps, key, text);
  }

  lemma BundleDropped(k: seq<Piece>, ps: seq<Piece>, key: string, text: string)
    requires ' ' !in key && ' ' !in text
    ensures DropSpaces(JObject(Bundle(key, text, k, ps))) == JObject(Bundle(key, text, StripPieces(k), StripPieces(ps)))
  {
    RawsStripped(key);
    RawsStripped(text);
    StripChars(key);
    StripChars(text);
    var fs := Bundle(key, text, k, ps);
    assert DropFields(fs) == Bundle(key, text, StripPieces(k), StripPieces(ps));
  }

  lemma MendedIsUnknown(k: seq<Piece>, key: string)
    requires Decode(StripPieces(k)) == key && Decode(k) != key
    ensures Decode(k) !in CONFIG_KEYS
  {
    StripPiecesExact(k);
    SpaceDecoded(k);
    ProjectedKeys();
  }

  lemma OneConfig(d: Doc)
    requires ToConfig(d).Some?
    ensures ToConfigs([d]) == Some([ToConfig(d).value])
  {
    var ds := [d];
    assert ds[1..] == [] && ToConfigs([]) == Some([]);
    assert [ToConfig(ds[0]).value] + [] == [ToConfig(d).value];
    assert ToConfigs(ds) == Some([ToConfig(ds[0]).value] + []);
  }

  lemma TwoFields(f: Field, g: Field, key: string)
    ensures TextField([f, g], key) == SetText(SetText(Some(""), f, key), g, key)
    ensures Decode(f.key) != key && Decode(g.key) != key ==> EntriesField([f, g], key) == Some([])
  {
    var one, two := [f], [f, g];
    assert one[..|one| - 1] == [] && two[..|two| - 1] == one;
    assert TextField([], key) == Some("") && EntriesField([], key) == Some([]);
    assert TextField(one, key) == SetText(Some(""), f, key);
    assert Decode(f.key) != key ==> EntriesField(one, key) == Some([]);
  }

  /** A bundle with one more string, under the key "name" or one that is not projected. */
  lemma BundleConfig(fs: seq<Field>, key: string)
    requires |fs| == 2 && fs[0] == Field(Raws("schema"), JString(Raws("olm.bundle"))) && fs[1].value.JString?
    requires Decode(fs[1].key) == key && (key == "name" || key !in CONFIG_KEYS)
    ensures ToConfig(JObject(fs)) ==
            Some(NamedBundle(if key == "name" then Decode(fs[1].value.pieces) else ""))
  {
    assert fs == [fs[0], fs[1]];
    RawsDecoded("schema");
    RawsDecoded("olm.bundle");
    TwoFields(fs[0], fs[1], "schema");
    TwoFields(fs[0], fs[1], "name");
    TwoFields(fs[0], fs[1], "package");
    TwoFields(fs[0], fs[1], "entries");
    TwoFields(fs[0], fs[1], "defaultChannel");
    TwoFields(fs[0], fs[1], "description");
  }

  // ---------- an invalid catalog that is read ----------

  /** An object with one member whose value is the word null, broken by a space: `{"key":nu ll}`. */
  function BrokenNull(key: seq<Piece>): string {
    "{" + "\"" + RenderPieces(key) + ":nu" + " " + "ll}"
  }

  function WholeNull(key: seq<Piece>): Value {
    Object(LastMember(Member("", key, "", Element("", Null, ""))))
  }

  lemma BrokenNullStripped(key: seq<Piece>)
    requires LegalPieces(key)
    ensures StripSpaces(BrokenNull(key)) == StripSpaces(Render(WholeNull(key)))
  {
    var head := "{" + "\"" + RenderPieces(key) + ":nu";
    assert StripSpaces(" ") == "" by { assert " "[1..] == ""; }
    StripConcat3(head, " ", "ll}");
    StripConcat(head, "ll}");
    assert ":nu" + "ll}" == ":" + "null" + "}";
    WholeNullText(key);
    assert head + "ll}" == "{" + "\"" + RenderPieces(key) + (":nu" + "ll}");
  }

  lemma WholeNullText(key: seq<Piece>)
    ensures Render(WholeNull(key)) == "{" + "\"" + RenderPieces(key) + (":" + "null" + "}")
  {
    var e := Element("", Null, "");
    var m := Member("", key, "", e);
    assert Render(WholeNull(key)) == "{" + RenderMembers(LastMember(m)) + "}";
    assert RenderMembers(LastMember(m)) == RenderMember(m);
    assert RenderMember(m) == "" + "\"" + RenderPieces(key) + "" + ":" + RenderElement(e);
    assert RenderElement(e) == "" + "null" + "";
    NullText(RenderPieces(key));
  }

  lemma NullText(key: string)
    ensures "{" + ("" + "\"" + key + "" + ":" + ("" + "null" + "")) + "}" == "{" + "\"" + key + (":" + "null" + "}")
  {
    assert "" + "null" + "" == "null";
    assert "" + "\"" + key + "" == "\"" + key;
  }

  lemma BrokenNullWalks(key: seq<Piece>)
    requires LegalPieces(key)
    ensures !Unbroken(BrokenNull(key))
  {
    var quoted := "{" + "\"" + RenderPieces(key);
    assert Walk(Between, quoted) == Between by {
      WalkConcat3(Between, "{", "\"", RenderPieces(key));
      WalkOne(Between, '{');
      WalkOne(Between, '"');
      WalkPieces(key);
    }
    WalkConcat3(Between, quoted + ":nu", " ", "ll}");
    WalkConcat(Between, quoted, ":nu");
    BrokenWordWalks();
    WalkOne(InToken, ' ');
  }

  lemma BrokenWordWalks()
    ensures Walk(Between, ":nu") == InToken && Walk(AfterToken, "ll}") == Broken
  {
    WalkConcat3(Between, ":", "n", "u");
    assert ":" + "n" + "u" == ":nu";
    WalkOne(Between, ':');
    WalkOne(Between, 'n');
    WalkOne(InToken, 'u');
    WalkConcat3(AfterToken, "l", "l", "}");
    assert "l" + "l" + "}" == "ll}";
    WalkOne(AfterToken, 'l');
    WalkBroken("l");
    WalkBroken("}");
  }

  /** The catalog `{"key":nu ll}` is not JSON and no stream for any key, and is read without an error. */
  lemma BrokenNullIsRead(key: seq<Piece>)
    requires LegalPieces(key)
    ensures ParseText(BrokenNull(key)) == Fail && !Streams.IsCatalog(BrokenNull(key))
    ensures ReadConfigs(BrokenNull(key)).Some?
  {
    var x := BrokenNull(key);
    var chunks := [Chunk(x, "")];
    BrokenNullObject(key);
    assert StripChunks(chunks) == [Chunk(StripSpaces(x), StripSpaces(""))];
    assert IsStream(StripChunks(chunks));
    assert ParseText(x) == Fail && ReadObjects("" + Body(chunks)) == Some(Docs(StripChunks(chunks))) by {
      StrippingHidesErrors("", chunks);
      assert chunks[0].text == x;
      BrokenNullWalks(key);
    }
    assert "" + Body(chunks) == x by {
      assert Body(chunks) == x + "" + Body(chunks[1..]) && chunks[1..] == [];
    }
    NullConfig(StripPieces(key), Docs(StripChunks(chunks)));
    assert !Streams.IsCatalog(x) by {
      BrokenNullWalks(key);
      Streams.CatalogExactly(x);
    }
  }

  /** The word null is no stream of objects, and is read as one empty configuration. */
  lemma NullIsRead()
    ensures ReadConfigs(Render(Null)) == Some([Config("", "", "", [], "", "")]) && !Streams.IsCatalog(Render(Null))
  {
    Streams.OtherValueIsRead(Null);
    OneConfig(JNull);
  }

  lemma BrokenNullObject(key: seq<Piece>)
    requires LegalPieces(key)
    ensures IsObjectText(StripSpaces(BrokenNull(key)))
    ensures ObjectDoc(StripSpaces(BrokenNull(key))) == JObject([Field(StripPieces(key), JNull)])
  {
    var v := WholeNull(key);
    var whole := Render(v);
    assert ParseValue(whole) == Got(v, "") by {
      assert LegalMember(v.members.m);
      ValueExact(v, "");
      assert whole + "" == whole;
    }
    StripObject(whole);
    BrokenNullStripped(key);
    assert FieldsOf(v.members) == [Field(key, Meaning(v.members.m.e.value))] && Meaning(Null) == JNull;
    var fs := [Field(key, JNull)];
    assert fs[1..] == [] && DropFields(fs) == [Field(StripPieces(key), JNull)];
  }

  lemma NullConfig(key: seq<Piece>, docs: seq<Doc>)
    requires docs == [JObject([Field(key, JNull)])]
    ensures ToConfigs(docs).Some?
  {
    var fs := [Field(key, JNull)];
    assert fs[..0] == [] && fs[..|fs| - 1] == [];
    forall name: string ensures TextField(fs, name) == Some("") && EntriesField(fs, name) == Some([]) {
    }
    assert docs[1..] == [];
  }

  // ---------- what is shown ----------

  /** The text a listing line shows. */
  function Shown(line: Log.Line): string {
    match line
    case Channel(name) => name
    case EntryName(name) => name
    case Replaces(name) => name
    case Skips(name) => name
    case SkipRange(range) => range
    case Bundle(name) => name
    case _ => ""
  }

  function ShownTexts(lines: seq<Log.Line>): (texts: seq<string>)
    ensures |texts| == |lines|
    ensures forall i :: 0 <= i < |lines| ==> texts[i] == Shown(lines[i])
  {
    seq(|lines|, i requires 0 <= i < |lines| => Shown(lines[i]))
  }

  function IfAny(ps: seq<Piece>): seq<seq<Piece>> {
    if ps == [] then [] else [ps]
  }

  function EntryLiterals(s: EntrySource): seq<seq<Piece>> {
    [s.name] + IfAny(s.replaced) + s.skips + IfAny(s.skipRange)
  }

  function EntriesLiterals(ss: seq<EntrySource>): seq<seq<Piece>> {
    if ss == [] then [] else EntryLiterals(ss[0]) + EntriesLiterals(ss[1..])
  }

  function ConfigLiterals(s: Source): seq<seq<Piece>> {
    if Decode(s.schema) == "olm.channel" then [s.name] + EntriesLiterals(s.entries)
    else if Decode(s.schema) == "olm.bundle" then [s.name]
    else []
  }

  /** The string literals that a listing shows, in its order. */
  function ShownLiterals(ds: seq<Doc>): seq<seq<Piece>> {
    if ds == [] then [] else ConfigLiterals(SourceOf(ds[0])) + ShownLiterals(ds[1..])
  }

  lemma ShownConcat(a: seq<Log.Line>, b: seq<Log.Line>)
    ensures ShownTexts(a + b) == ShownTexts(a) + ShownTexts(b)
  {
  }

  lemma DecodeConcat(a: seq<seq<Piece>>, b: seq<seq<Piece>>)
    ensures DecodeEach(a + b) == DecodeEach(a) + DecodeEach(b)
  {
  }

  lemma {:induction false} SkipsShow(literals: seq<seq<Piece>>)
    ensures ShownTexts(SkipLines(DecodeEach(literals))) == DecodeEach(literals)
    decreases |literals|
  {
    if literals != [] {
      SkipsShow(literals[1..]);
      assert DecodeEach(literals)[1..] == DecodeEach(literals[1..]);
    }
  }

  lemma IfAnyShows(ps: seq<Piece>, line: Log.Line)
    requires Shown(line) == Decode(ps)
    ensures ShownTexts(if Decode(ps) != "" then [line] else []) == DecodeEach(IfAny(ps))
  {
  }

  lemma EntryShows(s: EntrySource)
    ensures ShownTexts(EntryLines(DecodeEntry(s))) == DecodeEach(EntryLiterals(s))
  {
    var e := DecodeEntry(s);
    SkipsShow(s.skips);
    IfAnyShows(s.replaced, Log.Replaces(e.replaced));
    IfAnyShows(s.skipRange, Log.SkipRange(e.skipRange));
    var first, second := [Log.EntryName(e.name)], if e.replaced != "" then [Log.Replaces(e.replaced)] else [];
    var last := if e.skipRange != "" then [Log.SkipRange(e.skipRange)] else [];
    ShownConcat(first, second);
    ShownConcat(first + second, SkipLines(e.skips));
    ShownConcat(first + second + SkipLines(e.skips), last);
    DecodeConcat([s.name], IfAny(s.replaced));
    DecodeConcat([s.name] + IfAny(s.replaced), s.skips);
    DecodeConcat([s.name] + IfAny(s.replaced) + s.skips, IfAny(s.skipRange));
    assert ShownTexts(first) == DecodeEach([s.name]);
  }

  lemma {:induction false} EntriesShow(ss: seq<EntrySource>)
    ensures ShownTexts(EntriesLines(DecodeEntries(ss))) == DecodeEach(EntriesLiterals(ss))
    decreases |ss|
  {
    if ss != [] {
      EntryShows(ss[0]);
      EntriesShow(ss[1..]);
      assert DecodeEntries(ss)[1..] == DecodeEntries(ss[1..]);
      ShownConcat(EntryLines(DecodeEntry(ss[0])), EntriesLines(DecodeEntries(ss[1..])));
      DecodeConcat(EntryLiterals(ss[0]), EntriesLiterals(ss[1..]));
    }
  }

  lemma ChannelShows(name: seq<Piece>, ss: seq<EntrySource>)
    ensures ShownTexts([Log.Channel(Decode(name))] + EntriesLines(DecodeEntries(ss))) == DecodeEach([name] + EntriesLiterals(ss))
  {
    EntriesShow(ss);
    ShownConcat([Log.Channel(Decode(name))], EntriesLines(DecodeEntries(ss)));
    DecodeConcat([name], EntriesLiterals(ss));
  }

  lemma ConfigShows(s: Source)
    ensures ShownTexts(ConfigLines(DecodeSource(s))) == DecodeEach(ConfigLiterals(s))
  {
    ChannelShows(s.name, s.entries);
  }

  /** Line by line, the listing shows the decoded literals of the objects read. */
  lemma {:induction false} ListingShows(ds: seq<Doc>, cs: seq<Config>)
    requires ToConfigs(ds) == Some(cs)
    ensures ShownTexts(CatalogLines(cs)) == DecodeEach(ShownLiterals(ds))
    decreases |ds|
  {
    if ds != [] {
      ConfigDecoded(ds[0]);
      ConfigShows(SourceOf(ds[0]));
      ListingShows(ds[1..], cs[1..]);
      ShownConcat(ConfigLines(cs[0]), CatalogLines(cs[1..]));
      DecodeConcat(ConfigLiterals(SourceOf(ds[0])), ShownLiterals(ds[1..]));
    }
  }

  /** The listing of a stream shows the decoded literals of its objects without their raw spaces. */
  lemma StreamShows(lead: string, chunks: seq<Chunk>)
    requires AllLayout(lead) && IsStream(chunks)
    ensures var read := ReadConfigs(lead + Body(chunks));
            read.Some? ==> ShownTexts(CatalogLines(read.value)) == DecodeEach(ShownLiterals(DropAll(Docs(chunks))))
  {
    StreamRead(lead, chunks);
    var read := ReadConfigs(lead + Body(chunks));
    if read.Some? {
      ListingShows(DropAll(Docs(chunks)), read.value);
    }
  }

  // ---------- when a line shows a space ----------

  predicate ShowsNoSpace(lines: seq<Log.Line>) {
    forall i :: 0 <= i < |lines| ==> ' ' !in Shown(lines[i])
  }

  predicate NoneRaw(literals: seq<seq<Piece>>) {
    forall i :: 0 <= i < |literals| ==> Raw(' ') !in literals[i]
  }

  lemma EntryNotRaw(s: EntrySource)
    ensures NoneRaw(EntryLiterals(StripEntrySource(s)))
  {
    StripPiecesExact(s.name);
    StripPiecesExact(s.replaced);
    StripPiecesExact(s.skipRange);
    forall i | 0 <= i < |s.skips| ensures Raw(' ') !in StripEach(s.skips)[i] {
      StripPiecesExact(s.skips[i]);
    }
  }

  lemma {:induction false} EntriesNotRaw(ss: seq<EntrySource>)
    ensures NoneRaw(EntriesLiterals(StripEntrySources(ss)))
    decreases |ss|
  {
    if ss != [] {
      EntryNotRaw(ss[0]);
      EntriesNotRaw(ss[1..]);
      assert StripEntrySources(ss)[1..] == StripEntrySources(ss[1..]);
    }
  }

  lemma ConfigNotRaw(s: Source)
    ensures NoneRaw(ConfigLiterals(StripSource(s)))
  {
    StripPiecesExact(s.name);
    EntriesNotRaw(s.entries);
  }

  lemma {:induction false} ShownNotRaw(ds: seq<Doc>)
    requires !HasRawSpace(JArray(ds))
    ensures NoneRaw(ShownLiterals(ds))
    decreases |ds|
  {
    if ds != [] {
      assert !HasRawSpace(ds[0]);
      DropSpacesExact(ds[0]);
      NoRawKeys(ds[0]);
      SourceDropped(ds[0]);
      ConfigNotRaw(SourceOf(ds[0]));
      ShownNotRaw(ds[1..]);
    }
  }

  lemma {:induction false} NoRawKeys(d: Doc)
    requires !HasRawSpace(d)
    ensures CleanKeys(d)
    decreases d
  {
    match d
    case JArray(items) =>
      forall i | 0 <= i < |items| ensures CleanKeys(items[i]) {
        assert !HasRawSpace(items[i]);
        NoRawKeys(items[i]);
      }
    case JObject(fs) =>
      forall i | 0 <= i < |fs| ensures Raw(' ') !in fs[i].key && CleanKeys(fs[i].value) {
        assert !HasRawSpace(fs[i].value);
        NoRawKeys(fs[i].value);
      }
    case _ =>
  }

  /** No literal that the program reads from a catalog has a raw space left. */
  lemma ReadNotRaw(data: string)
    requires ReadObjects(data).Some?
    ensures !HasRawSpace(JArray(ReadObjects(data).value))
  {
    var text, tmp := Rewrite(data), StripSpaces(data);
    StripChars(data);
    RepairPointwise(tmp);
    forall i | 0 <= i < |text| ensures text[i] != ' ' {
      if 0 < i < |text| - 1 {
        assert text[i] == Repair(tmp)[i - 1];
        assert tmp[i - 1] in tmp;
      }
    }
    StripChars(text);
    StrippedTextMeaning(text);
  }

  /**
    A listing shows a space if and only if some literal it shows spells one as
    an escape: raw spaces are deleted and escaped ones are not.
  */
  lemma ListingShowsNoSpace(data: string)
    requires ReadConfigs(data).Some?
    ensures ShowsNoSpace(CatalogLines(ReadConfigs(data).value)) <==>
            forall i :: 0 <= i < |ShownLiterals(ReadObjects(data).value)| ==>
              !EscapesSpace(ShownLiterals(ReadObjects(data).value)[i])
  {
    var ds, cs := ReadObjects(data).value, ReadConfigs(data).value;
    var lines, literals := CatalogLines(cs), ShownLiterals(ds);
    ReadNotRaw(data);
    ShownNotRaw(ds);
    ListingShows(ds, cs);
    assert |lines| == |literals| by {
      assert |ShownTexts(lines)| == |DecodeEach(literals)|;
    }
    forall i | 0 <= i < |lines| ensures ' ' !in Shown(lines[i]) <==> !EscapesSpace(literals[i]) {
      assert Shown(lines[i]) == ShownTexts(lines)[i] == DecodeEach(literals)[i] == Decode(literals[i]);
      SpaceDecoded(literals[i]);
    }
  }

  // ---------- the listing can be read back ----------

  /** What the listing shows of an object. */
  datatype Item = ChannelItem(name: string, entries: seq<Entry>) | BundleItem(name: string)

  function Items(cs: seq<Config>): seq<Item> {
    if cs == [] then []
    else
      (if cs[0].schema == "olm.channel" then [ChannelItem(cs[0].name, cs[0].entries)]
       else if cs[0].schema == "olm.bundle" then [BundleItem(cs[0].name)]
       else []) + Items(cs[1..])
  }

  /** A reader of the log, last line first: the entry being read, the entries of its channel, the items done. */
  datatype Reader = Reader(entry: Entry, entries: seq<Entry>, items: seq<Item>)

  const NO_ENTRY := Entry("", "", [], "")

  function ReadLine(line: Log.Line, r: Reader): Reader {
    match line
    case SkipRange(range) => r.(entry := r.entry.(skipRange := range))
    case Skips(name) => r.(entry := r.entry.(skips := [name] + r.entry.skips))
    case Replaces(name) => r.(entry := r.entry.(replaced := name))
    case EntryName(name) => Reader(NO_ENTRY, [r.entry.(name := name)] + r.entries, r.items)
    case Channel(name) => Reader(NO_ENTRY, [], [ChannelItem(name, r.entries)] + r.items)
    case Bundle(name) => Reader(NO_ENTRY, [], [BundleItem(name)] + r.items)
    case _ => r
  }

  function ReadLines(lines: seq<Log.Line>, r: Reader): Reader
    decreases |lines|
  {
    if lines == [] then r else ReadLine(lines[0], ReadLines(lines[1..], r))
  }

  lemma {:induction false} ReadConcat(a: seq<Log.Line>, b: seq<Log.Line>, r: Reader)
    ensures ReadLines(a + b, r) == ReadLines(a, ReadLines(b, r))
    decreases |a|
  {
    if a == [] {
      assert a + b == b;
    } else {
      assert (a + b)[1..] == a[1..] + b;
      ReadConcat(a[1..], b, r);
    }
  }

  lemma ReadOne(line: Log.Line, r: Reader)
    ensures ReadLines([line], r) == ReadLine(line, r)
  {
    assert [line][1..] == [];
  }

  lemma FirstSkip(skips: seq<string>, more: seq<string>)
    requires skips != []
    ensures [skips[0]] + (skips[1..] + more) == skips + more
  {
  }

  lemma {:induction false} ReadSkips(skips: seq<string>, r: Reader)
    ensures ReadLines(SkipLines(skips), r) == r.(entry := r.entry.(skips := skips + r.entry.skips))
    decreases |skips|
  {
    if skips == [] {
      assert skips + r.entry.skips == r.entry.skips;
    } else {
      var rest := ReadLines(SkipLines(skips[1..]), r);
      ReadSkips(skips[1..], r);
      ReadConcat([Log.Skips(skips[0])], SkipLines(skips[1..]), r);
      ReadOne(Log.Skips(skips[0]), rest);
      FirstSkip(skips, r.entry.skips);
    }
  }

  lemma ReadEntry(e: Entry, r: Reader)
    requires r.entry == NO_ENTRY
    ensures ReadLines(EntryLines(e), r) == r.(entries := [e] + r.entries)
  {
    var head, replaced := [Log.EntryName(e.name)], if e.replaced != "" then [Log.Replaces(e.replaced)] else [];
    var range := if e.skipRange != "" then [Log.SkipRange(e.skipRange)] else [];
    ReadConcat(head + replaced + SkipLines(e.skips), range, r);
    var r1 := ReadLines(range, r);
    assert r1 == r.(entry := NO_ENTRY.(skipRange := e.skipRange)) by {
      ReadOne(Log.SkipRange(e.skipRange), r);
    }
    ReadConcat(head + replaced, SkipLines(e.skips), r1);
    ReadSkips(e.skips, r1);
    var r2 := ReadLines(SkipLines(e.skips), r1);
    assert e.skips + [] == e.skips;
    assert r2 == r.(entry := Entry("", "", e.skips, e.skipRange));
    ReadConcat(head, replaced, r2);
    ReadOne(Log.Replaces(e.replaced), r2);
    ReadOne(Log.EntryName(e.name), ReadLines(replaced, r2));
  }

  lemma {:induction false} ReadEntries(es: seq<Entry>, r: Reader)
    requires r.entry == NO_ENTRY
    ensures ReadLines(EntriesLines(es), r) == r.(entries := es + r.entries)
    decreases |es|
  {
    if es == [] {
      assert es + r.entries == r.entries;
    } else {
      ReadConcat(EntryLines(es[0]), EntriesLines(es[1..]), r);
      ReadEntries(es[1..], r);
      ReadEntry(es[0], ReadLines(EntriesLines(es[1..]), r));
      assert [es[0]] + (es[1..] + r.entries) == es + r.entries;
    }
  }

  /**
    The listing loses nothing of what it shows: channels with their entries in
    order, each with its name, replaced version, skips and range, and bundles
    can be read back from the log.
  */
  lemma {:induction false} ListingReadsBack(cs: seq<Config>)
    ensures ReadLines(CatalogLines(cs), Reader(NO_ENTRY, [], [])) == Reader(NO_ENTRY, [], Items(cs))
    decreases |cs|
  {
    if cs != [] {
      var start := Reader(NO_ENTRY, [], []);
      ReadConcat(ConfigLines(cs[0]), CatalogLines(cs[1..]), start);
      ListingReadsBack(cs[1..]);
      ReadConfig(cs[0], Reader(NO_ENTRY, [], Items(cs[1..])));
    }
  }

  lemma ReadConfig(c: Config, r: Reader)
    requires r.entry == NO_ENTRY && r.entries == []
    ensures ReadLines(ConfigLines(c), r) == r.(items := Items([c]) + r.items)
  {
    assert [c][1..] == [] && Items([]) == [];
    if c.schema == "olm.channel" {
      ReadConcat([Log.Channel(c.name)], EntriesLines(c.entries), r);
      ReadEntries(c.entries, r);
      assert c.entries + [] == c.entries;
      ReadOne(Log.Channel(c.name), ReadLines(EntriesLines(c.entries), r));
    } else if c.schema == "olm.bundle" {
      ReadOne(Log.Bundle(c.name), r);
    }
  }
}
