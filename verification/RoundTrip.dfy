/**
  Writing a catalog and reading it back: every document has a text, and every
  list of configurations has a catalog file that the program reads as exactly
  that list.  Also, exactly which objects the projection accepts.
*/
module RoundTrip {
  import opened Wrappers
  import opened Text
  import opened Json
  import opened JsonExact
  import opened Stripping
  import opened Decoding
  import opened Catalog
  import opened Listing
  import opened Projection
  import opened Streams

  // ---------- a text for every document ----------

  predicate LegalDoc(d: Doc) {
    match d
    case JNumber(lexeme) => IsNumber(lexeme)
    case JString(ps) => LegalPieces(ps)
    case JArray(items) => forall i :: 0 <= i < |items| ==> LegalDoc(items[i])
    case JObject(fs) => forall i :: 0 <= i < |fs| ==> LegalPieces(fs[i].key) && LegalDoc(fs[i].value)
    case _ => true
  }

  function ValueOf(d: Doc): Value {
    match d
    case JNull => Null
    case JBool(b) => if b then True else False
    case JNumber(lexeme) => Number(lexeme)
    case JString(ps) => Literal(ps)
    case JArray(items) => if items == [] then EmptyArray("") else Array(ElementsOf(items))
    case JObject(fs) => if fs == [] then EmptyObject("") else Object(MembersFor(fs))
  }

  function ElementsOf(items: seq<Doc>): Elements
    requires items != []
  {
    var e := Element("", ValueOf(items[0]), "");
    if |items| == 1 then LastItem(e) else Item(e, ElementsOf(items[1..]))
  }

  function MembersFor(fs: seq<Field>): Members
    requires fs != []
  {
    var m := Member("", fs[0].key, "", Element("", ValueOf(fs[0].value), ""));
    if |fs| == 1 then LastMember(m) else NextMember(m, MembersFor(fs[1..]))
  }

  /** The written value is legal and means the document. */
  lemma {:induction false} ValueMeans(d: Doc)
    requires LegalDoc(d)
    ensures Legal(ValueOf(d)) && Meaning(ValueOf(d)) == d
    decreases d
  {
    match d
    case JArray(items) =>
      if items != [] {
        ElementsMean(items);
      }
    case JObject(fs) =>
      if fs != [] {
        MembersMean(fs);
      }
    case _ =>
  }

  lemma {:induction false} ElementsMean(items: seq<Doc>)
    requires items != [] && forall i :: 0 <= i < |items| ==> LegalDoc(items[i])
    ensures LegalElements(ElementsOf(items)) && Meanings(ElementsOf(items)) == items
    decreases items
  {
    ValueMeans(items[0]);
    if |items| > 1 {
      ElementsMean(items[1..]);
      assert items == [items[0]] + items[1..];
    } else {
      assert items == [items[0]];
    }
  }

  lemma {:induction false} MembersMean(fs: seq<Field>)
    requires fs != [] && forall i :: 0 <= i < |fs| ==> LegalPieces(fs[i].key) && LegalDoc(fs[i].value)
    ensures LegalMembers(MembersFor(fs)) && FieldsOf(MembersFor(fs)) == fs
    decreases fs
  {
    ValueMeans(fs[0].value);
    if |fs| > 1 {
      MembersMean(fs[1..]);
      assert fs == [fs[0]] + fs[1..];
    } else {
      assert fs == [fs[0]];
    }
  }

  // ---------- a catalog for every list of objects ----------

  predicate LegalObjects(ds: seq<Doc>) {
    forall i :: 0 <= i < |ds| ==> ds[i].JObject? && LegalDoc(ds[i])
  }

  /** The objects' texts, one newline between each and the next. */
  function CatalogText(ds: seq<Doc>): string {
    if ds == [] then ""
    else if |ds| == 1 then Render(ValueOf(ds[0]))
    else Render(ValueOf(ds[0])) + "\n" + CatalogText(ds[1..])
  }

  function ChunksFor(ds: seq<Doc>): (chunks: seq<Chunk>)
    ensures |chunks| == |ds|
    ensures forall i :: 0 <= i < |ds| ==> chunks[i] == Chunk(Render(ValueOf(ds[i])), if i < |ds| - 1 then "\n" else "")
  {
    seq(|ds|, i requires 0 <= i < |ds| => Chunk(Render(ValueOf(ds[i])), if i < |ds| - 1 then "\n" else ""))
  }

  lemma {:induction false} TextIsBody(ds: seq<Doc>)
    ensures CatalogText(ds) == Body(ChunksFor(ds))
    decreases |ds|
  {
    if ds != [] {
      TextIsBody(ds[1..]);
      assert ChunksFor(ds)[1..] == ChunksFor(ds[1..]);
    }
  }

  lemma WrittenStream(ds: seq<Doc>)
    requires LegalObjects(ds)
    ensures IsStream(ChunksFor(ds)) && NewlineSeparated(ChunksFor(ds)) && Docs(ChunksFor(ds)) == ds
  {
    var chunks := ChunksFor(ds);
    forall i | 0 <= i < |ds| ensures IsObjectText(chunks[i].text) && ObjectDoc(chunks[i].text) == ds[i] {
      var v := ValueOf(ds[i]);
      ValueMeans(ds[i]);
      RenderedObject(v);
      ValueExact(v, "");
      assert Render(v) + "" == Render(v);
    }
    StripChars("\n");
  }

  /** A written catalog is read as its objects without their raw spaces. */
  lemma WrittenIsRead(ds: seq<Doc>)
    requires LegalObjects(ds)
    ensures ReadObjects(CatalogText(ds)) == Some(DropAll(ds))
  {
    var chunks := ChunksFor(ds);
    TextIsBody(ds);
    WrittenStream(ds);
    StreamRead("", chunks);
    assert "" + Body(chunks) == Body(chunks);
  }

  // ---------- a catalog for every list of configurations ----------

  /** A text with every character escaped. */
  function TextDoc(s: string): (d: Doc)
    ensures LegalDoc(d)
  {
    JString(EscapeAll(s))
  }

  function TextDocs(ss: seq<string>): (ds: seq<Doc>)
    ensures |ds| == |ss|
    ensures forall i :: 0 <= i < |ss| ==> ds[i] == TextDoc(ss[i])
  {
    seq(|ss|, i requires 0 <= i < |ss| => TextDoc(ss[i]))
  }

  function Named(key: string, d: Doc): Field {
    Field(Raws(key), d)
  }

  function EntryDoc(e: Entry): Doc {
    JObject([Named("name", TextDoc(e.name)), Named("replaces", TextDoc(e.replaced)),
             Named("skips", JArray(TextDocs(e.skips))), Named("skipRange", TextDoc(e.skipRange))])
  }

  function EntryDocs(es: seq<Entry>): (ds: seq<Doc>)
    ensures |ds| == |es|
    ensures forall i :: 0 <= i < |es| ==> ds[i] == EntryDoc(es[i])
  {
    seq(|es|, i requires 0 <= i < |es| => EntryDoc(es[i]))
  }

  function ConfigDoc(c: Config): Doc {
    JObject([Named("schema", TextDoc(c.schema)), Named("name", TextDoc(c.name)), Named("package", TextDoc(c.pkg)),
             Named("entries", JArray(EntryDocs(c.entries))),
             Named("defaultChannel", TextDoc(c.defaultChannel)), Named("description", TextDoc(c.description))])
  }

  function ConfigDocs(cs: seq<Config>): (ds: seq<Doc>)
    ensures |ds| == |cs|
    ensures forall i :: 0 <= i < |cs| ==> ds[i] == ConfigDoc(cs[i])
  {
    seq(|cs|, i requires 0 <= i < |cs| => ConfigDoc(cs[i]))
  }

  /** Member i is the only one with its key. */
  predicate Only(fs: seq<Field>, i: nat, key: string) {
    && i < |fs| && fs[i].key == Raws(key)
    && forall j :: 0 <= j < |fs| && j != i ==> Decode(fs[j].key) != key
  }

  lemma {:induction false} NoneText(fs: seq<Field>, key: string)
    requires forall j :: 0 <= j < |fs| ==> Decode(fs[j].key) != key
    ensures TextField(fs, key) == Some("") && TextsField(fs, key) == Some([]) && EntriesField(fs, key) == Some([])
    decreases |fs|
  {
    if fs != [] {
      NoneText(fs[..|fs| - 1], key);
    }
  }

  /** The only member with a key decides the field. */
  lemma {:induction false} OnlyField(fs: seq<Field>, i: nat, key: string)
    requires Only(fs, i, key)
    ensures fs[i].value.JString? ==> TextField(fs, key) == Some(Decode(fs[i].value.pieces))
    ensures TextsField(fs, key) == TextsOf(fs[i].value) && EntriesField(fs, key) == EntriesOf(fs[i].value)
    decreases |fs|
  {
    RawsDecoded(key);
    var init := fs[..|fs| - 1];
    if i == |fs| - 1 {
      NoneText(init, key);
    } else {
      OnlyField(init, i, key);
    }
  }

  lemma {:induction false} TextsRead(ss: seq<string>)
    ensures Texts(TextDocs(ss)) == Some(ss)
    decreases |ss|
  {
    if ss != [] {
      DecodeEscaped(ss[0]);
      TextsRead(ss[1..]);
      assert TextDocs(ss)[1..] == TextDocs(ss[1..]) && [ss[0]] + ss[1..] == ss;
    }
  }

  predicate Keyed(fs: seq<Field>, keys: seq<string>) {
    && |fs| == |keys|
    && (forall i :: 0 <= i < |fs| ==> fs[i].key == Raws(keys[i]))
    && forall i, j :: 0 <= i < j < |keys| ==> keys[i] != keys[j]
  }

  lemma KeyedField(fs: seq<Field>, keys: seq<string>, i: nat)
    requires Keyed(fs, keys) && i < |fs|
    ensures fs[i].value.JString? ==> TextField(fs, keys[i]) == Some(Decode(fs[i].value.pieces))
    ensures TextsField(fs, keys[i]) == TextsOf(fs[i].value) && EntriesField(fs, keys[i]) == EntriesOf(fs[i].value)
  {
    forall j | 0 <= j < |fs| && j != i ensures Decode(fs[j].key) != keys[i] {
      RawsDecoded(keys[j]);
    }
    OnlyField(fs, i, keys[i]);
  }

  /** A written string is the field's value. */
  lemma KeyedText(fs: seq<Field>, keys: seq<string>, i: nat, s: string)
    requires Keyed(fs, keys) && i < |fs| && fs[i].value == TextDoc(s)
    ensures TextField(fs, keys[i]) == Some(s)
  {
    KeyedField(fs, keys, i);
    DecodeEscaped(s);
  }

  lemma EntryRead(e: Entry)
    ensures ToEntry(EntryDoc(e)) == Some(e)
  {
    var fs, keys := EntryDoc(e).members, ["name", "replaces", "skips", "skipRange"];
    assert Keyed(fs, keys);
    KeyedText(fs, keys, 0, e.name);
    KeyedText(fs, keys, 1, e.replaced);
    KeyedField(fs, keys, 2);
    TextsRead(e.skips);
    KeyedText(fs, keys, 3, e.skipRange);
    assert TextField(fs, "name") == Some(e.name) && TextField(fs, "replaces") == Some(e.replaced);
    assert TextsField(fs, "skips") == Some(e.skips) && TextField(fs, "skipRange") == Some(e.skipRange);
  }

  lemma {:induction false} EntriesRead(es: seq<Entry>)
    ensures ToEntries(EntryDocs(es)) == Some(es)
    decreases |es|
  {
    if es != [] {
      EntryRead(es[0]);
      EntriesRead(es[1..]);
      assert EntryDocs(es)[1..] == EntryDocs(es[1..]) && [es[0]] + es[1..] == es;
    }
  }

  const CONFIG_ORDER := ["schema", "name", "package", "entries", "defaultChannel", "description"]

  lemma ConfigKeyed(c: Config)
    ensures Keyed(ConfigDoc(c).members, CONFIG_ORDER)
  {
  }

  /** The six fields, whatever their keys. */
  lemma SixFields(fs: seq<Field>, keys: seq<string>, c: Config)
    requires Keyed(fs, keys) && |keys| == 6
    requires fs[0].value == TextDoc(c.schema) && fs[1].value == TextDoc(c.name) && fs[2].value == TextDoc(c.pkg)
    requires fs[3].value == JArray(EntryDocs(c.entries))
    requires fs[4].value == TextDoc(c.defaultChannel) && fs[5].value == TextDoc(c.description)
    ensures TextField(fs, keys[0]) == Some(c.schema) && TextField(fs, keys[1]) == Some(c.name)
    ensures TextField(fs, keys[2]) == Some(c.pkg) && EntriesField(fs, keys[3]) == Some(c.entries)
    ensures TextField(fs, keys[4]) == Some(c.defaultChannel) && TextField(fs, keys[5]) == Some(c.description)
  {
    KeyedText(fs, keys, 0, c.schema);
    KeyedText(fs, keys, 1, c.name);
    KeyedText(fs, keys, 2, c.pkg);
    KeyedField(fs, keys, 3);
    EntriesRead(c.entries);
    KeyedText(fs, keys, 4, c.defaultChannel);
    KeyedText(fs, keys, 5, c.description);
  }

  lemma ConfigRead(c: Config)
    ensures ToConfig(ConfigDoc(c)) == Some(c)
  {
    ConfigKeyed(c);
    SixFields(ConfigDoc(c).members, CONFIG_ORDER, c);
  }

  lemma {:induction false} ConfigsRead(cs: seq<Config>)
    ensures ToConfigs(ConfigDocs(cs)) == Some(cs)
    decreases |cs|
  {
    if cs != [] {
      assert ToConfig(ConfigDocs(cs)[0]) == Some(cs[0]) by { ConfigRead(cs[0]); }
      assert ConfigDocs(cs)[1..] == ConfigDocs(cs[1..]);
      ConfigsRead(cs[1..]);
      assert [cs[0]] + cs[1..] == cs;
    }
  }

  lemma {:induction false} UnitsNotRaw(s: string)
    ensures Raw(' ') !in EscapeAll(s)
    decreases |s|
  {
    if s != "" {
      UnitsNotRaw(s[1..]);
    }
  }

  predicate Clean(d: Doc) {
    !HasRawSpace(d) && LegalDoc(d)
  }

  lemma TextClean(s: string)
    ensures Clean(TextDoc(s))
  {
    UnitsNotRaw(s);
  }

  predicate PlainKey(key: string) {
    forall i :: 0 <= i < |key| ==> 'A' <= key[i] <= 'z' && key[i] != '\\'
  }

  lemma MemberClean(f: Field, key: string)
    requires f.key == Raws(key) && PlainKey(key)
    ensures Raw(' ') !in f.key && LegalPieces(f.key)
  {
  }

  lemma KeyedClean(fs: seq<Field>, keys: seq<string>)
    requires |fs| == |keys| && forall i :: 0 <= i < |fs| ==> fs[i].key == Raws(keys[i]) && PlainKey(keys[i]) && Clean(fs[i].value)
    ensures Clean(JObject(fs))
  {
    forall i | 0 <= i < |fs| ensures Raw(' ') !in fs[i].key && LegalPieces(fs[i].key) {
      MemberClean(fs[i], keys[i]);
    }
  }

  lemma TextsClean(ss: seq<string>)
    ensures Clean(JArray(TextDocs(ss)))
  {
    forall i | 0 <= i < |ss| ensures Clean(TextDocs(ss)[i]) {
      TextClean(ss[i]);
    }
  }

  lemma EntryClean(e: Entry)
    ensures Clean(EntryDoc(e))
  {
    TextClean(e.name);
    TextClean(e.replaced);
    TextsClean(e.skips);
    TextClean(e.skipRange);
    KeyedClean(EntryDoc(e).members, ["name", "replaces", "skips", "skipRange"]);
  }

  lemma EntriesClean(es: seq<Entry>)
    ensures Clean(JArray(EntryDocs(es)))
  {
    forall i | 0 <= i < |es| ensures Clean(EntryDocs(es)[i]) {
      EntryClean(es[i]);
    }
  }

  lemma ConfigClean(c: Config)
    ensures Clean(ConfigDoc(c))
  {
    TextClean(c.schema);
    TextClean(c.name);
    TextClean(c.pkg);
    EntriesClean(c.entries);
    TextClean(c.defaultChannel);
    TextClean(c.description);
    KeyedClean(ConfigDoc(c).members, ["schema", "name", "package", "entries", "defaultChannel", "description"]);
  }

  /**
    Every list of configurations, with any texts in it, has a catalog file that
    is read as exactly that list.
  */
  lemma CatalogReadsBack(cs: seq<Config>)
    ensures ReadConfigs(CatalogText(ConfigDocs(cs))) == Some(cs)
  {
    var ds := ConfigDocs(cs);
    forall i | 0 <= i < |ds| ensures ds[i].JObject? && LegalDoc(ds[i]) && DropSpaces(ds[i]) == ds[i] {
      ConfigClean(cs[i]);
      DropSpacesExact(ds[i]);
    }
    assert DropAll(ds) == ds;
    WrittenIsRead(ds);
    ConfigsRead(cs);
  }

  // ---------- which objects the projection accepts ----------

  predicate TextTyped(d: Doc) {
    d.JNull? || d.JString?
  }

  predicate TextsTyped(d: Doc) {
    d.JNull? || (d.JArray? && forall i :: 0 <= i < |d.items| ==> TextTyped(d.items[i]))
  }

  predicate EntryTyped(d: Doc) {
    d.JNull? ||
    (d.JObject? && forall i :: 0 <= i < |d.members| ==>
       && (Decode(d.members[i].key) in {"name", "replaces", "skipRange"} ==> TextTyped(d.members[i].value))
       && (Decode(d.members[i].key) == "skips" ==> TextsTyped(d.members[i].value)))
  }

  predicate EntriesTyped(d: Doc) {
    d.JNull? || (d.JArray? && forall i :: 0 <= i < |d.items| ==> EntryTyped(d.items[i]))
  }

  /** Every member with a projected key has a value of its type, or null. */
  predicate ConfigTyped(d: Doc) {
    d.JNull? ||
    (d.JObject? && forall i :: 0 <= i < |d.members| ==>
       && (Decode(d.members[i].key) in {"schema", "name", "package", "defaultChannel", "description"} ==> TextTyped(d.members[i].value))
       && (Decode(d.members[i].key) == "entries" ==> EntriesTyped(d.members[i].value)))
  }

  lemma {:induction false} TextFieldTyped(fs: seq<Field>, key: string)
    ensures TextField(fs, key).Some? <==> forall i :: 0 <= i < |fs| && Decode(fs[i].key) == key ==> TextTyped(fs[i].value)
    decreases |fs|
  {
    if fs != [] {
      TextFieldTyped(fs[..|fs| - 1], key);
    }
  }

  lemma {:induction false} TextsAllTyped(ds: seq<Doc>)
    ensures Texts(ds).Some? <==> forall i :: 0 <= i < |ds| ==> TextTyped(ds[i])
    decreases |ds|
  {
    if ds != [] {
      TextsAllTyped(ds[1..]);
      assert forall i :: 0 < i < |ds| ==> ds[i] == ds[1..][i - 1];
    }
  }

  lemma {:induction false} TextsFieldTyped(fs: seq<Field>, key: string)
    ensures TextsField(fs, key).Some? <==> forall i :: 0 <= i < |fs| && Decode(fs[i].key) == key ==> TextsTyped(fs[i].value)
    decreases |fs|
  {
    if fs != [] {
      TextsFieldTyped(fs[..|fs| - 1], key);
      if fs[|fs| - 1].value.JArray? {
        TextsAllTyped(fs[|fs| - 1].value.items);
      }
    }
  }

  lemma EntryTypedExactly(d: Doc)
    ensures ToEntry(d).Some? <==> EntryTyped(d)
  {
    if d.JObject? {
      TextFieldTyped(d.members, "name");
      TextFieldTyped(d.members, "replaces");
      TextsFieldTyped(d.members, "skips");
      TextFieldTyped(d.members, "skipRange");
    }
  }

  lemma {:induction false} EntriesAllTyped(ds: seq<Doc>)
    ensures ToEntries(ds).Some? <==> forall i :: 0 <= i < |ds| ==> EntryTyped(ds[i])
    decreases |ds|
  {
    if ds != [] {
      EntryTypedExactly(ds[0]);
      EntriesAllTyped(ds[1..]);
      assert forall i :: 0 < i < |ds| ==> ds[i] == ds[1..][i - 1];
    }
  }

  lemma {:induction false} EntriesFieldTyped(fs: seq<Field>, key: string)
    ensures EntriesField(fs, key).Some? <==> forall i :: 0 <= i < |fs| && Decode(fs[i].key) == key ==> EntriesTyped(fs[i].value)
    decreases |fs|
  {
    if fs != [] {
      EntriesFieldTyped(fs[..|fs| - 1], key);
      if fs[|fs| - 1].value.JArray? {
        EntriesAllTyped(fs[|fs| - 1].value.items);
      }
    }
  }

  /** The projection accepts exactly null and the objects whose members with projected keys all have values of their types. */
  lemma ConfigTypedExactly(d: Doc)
    ensures ToConfig(d).Some? <==> ConfigTyped(d)
  {
    if d.JObject? {
      TextFieldTyped(d.members, "schema");
      TextFieldTyped(d.members, "name");
      TextFieldTyped(d.members, "package");
      EntriesFieldTyped(d.members, "entries");
      TextFieldTyped(d.members, "defaultChannel");
      TextFieldTyped(d.members, "description");
    }
  }
}
