/**
  The string literals that the fields of a configuration take their values
  from, and what the deletion of raw spaces does to fields: to the keys, which
  it can turn into projected ones, and to the values.
*/
module Projection {
  import opened Wrappers
  import opened Text
  import opened Json
  import opened Stripping
  import opened Decoding
  import opened Listing

  // ---------- the literals behind a configuration ----------

  datatype EntrySource = EntrySource(name: seq<Piece>, replaced: seq<Piece>, skips: seq<seq<Piece>>, skipRange: seq<Piece>)

  datatype Source = Source(
    schema: seq<Piece>, name: seq<Piece>, pkg: seq<Piece>,
    entries: seq<EntrySource>, defaultChannel: seq<Piece>, description: seq<Piece>)

  /** The literal that a string field takes its value from: the last string given for the key. */
  function LiteralOf(fs: seq<Field>, key: string): seq<Piece> {
    if fs == [] then []
    else
      var last := fs[|fs| - 1];
      if Decode(last.key) == key && last.value.JString? then last.value.pieces
      else LiteralOf(fs[..|fs| - 1], key)
  }

  function LastValue(fs: seq<Field>, key: string): Doc {
    if fs == [] then JNull
    else if Decode(fs[|fs| - 1].key) == key then fs[|fs| - 1].value
    else LastValue(fs[..|fs| - 1], key)
  }

  function ItemsOf(d: Doc): seq<Doc> {
    if d.JArray? then d.items else []
  }

  function MembersOf(d: Doc): seq<Field> {
    if d.JObject? then d.members else []
  }

  function TextLiterals(ds: seq<Doc>): (literals: seq<seq<Piece>>)
    ensures |literals| == |ds|
    ensures forall i :: 0 <= i < |ds| ==> literals[i] == if ds[i].JString? then ds[i].pieces else []
  {
    seq(|ds|, i requires 0 <= i < |ds| => if ds[i].JString? then ds[i].pieces else [])
  }

  function EntrySourceOf(d: Doc): EntrySource {
    var fs := MembersOf(d);
    EntrySource(LiteralOf(fs, "name"), LiteralOf(fs, "replaces"),
                TextLiterals(ItemsOf(LastValue(fs, "skips"))), LiteralOf(fs, "skipRange"))
  }

  function EntrySources(ds: seq<Doc>): (sources: seq<EntrySource>)
    ensures |sources| == |ds|
    ensures forall i :: 0 <= i < |ds| ==> sources[i] == EntrySourceOf(ds[i])
  {
    seq(|ds|, i requires 0 <= i < |ds| => EntrySourceOf(ds[i]))
  }

  function SourceOf(d: Doc): Source {
    var fs := MembersOf(d);
    Source(LiteralOf(fs, "schema"), LiteralOf(fs, "name"), LiteralOf(fs, "package"),
           EntrySources(ItemsOf(LastValue(fs, "entries"))),
           LiteralOf(fs, "defaultChannel"), LiteralOf(fs, "description"))
  }

  function DecodeEach(literals: seq<seq<Piece>>): (texts: seq<string>)
    ensures |texts| == |literals|
    ensures forall i :: 0 <= i < |literals| ==> texts[i] == Decode(literals[i])
  {
    seq(|literals|, i requires 0 <= i < |literals| => Decode(literals[i]))
  }

  function DecodeEntry(s: EntrySource): Entry {
    Entry(Decode(s.name), Decode(s.replaced), DecodeEach(s.skips), Decode(s.skipRange))
  }

  function DecodeEntries(ss: seq<EntrySource>): (es: seq<Entry>)
    ensures |es| == |ss|
    ensures forall i :: 0 <= i < |ss| ==> es[i] == DecodeEntry(ss[i])
  {
    seq(|ss|, i requires 0 <= i < |ss| => DecodeEntry(ss[i]))
  }

  function DecodeSource(s: Source): Config {
    Config(Decode(s.schema), Decode(s.name), Decode(s.pkg),
           DecodeEntries(s.entries), Decode(s.defaultChannel), Decode(s.description))
  }

  lemma {:induction false} FieldLiteral(fs: seq<Field>, key: string)
    requires TextField(fs, key).Some?
    ensures TextField(fs, key) == Some(Decode(LiteralOf(fs, key)))
    decreases |fs|
  {
    if fs != [] {
      FieldLiteral(fs[..|fs| - 1], key);
    }
  }

  lemma {:induction false} FieldTexts(fs: seq<Field>, key: string)
    requires TextsField(fs, key).Some?
    ensures TextsField(fs, key) == TextsOf(LastValue(fs, key))
    decreases |fs|
  {
    if fs != [] {
      FieldTexts(fs[..|fs| - 1], key);
    }
  }

  lemma {:induction false} FieldEntries(fs: seq<Field>, key: string)
    requires EntriesField(fs, key).Some?
    ensures EntriesField(fs, key) == EntriesOf(LastValue(fs, key))
    decreases |fs|
  {
    if fs != [] {
      FieldEntries(fs[..|fs| - 1], key);
    }
  }

  lemma {:induction false} TextsDecoded(ds: seq<Doc>)
    requires Texts(ds).Some?
    ensures Texts(ds) == Some(DecodeEach(TextLiterals(ds)))
    decreases |ds|
  {
    if ds != [] {
      TextsDecoded(ds[1..]);
      assert DecodeEach(TextLiterals(ds)) == [TextOf(ds[0]).value] + DecodeEach(TextLiterals(ds[1..]));
    }
  }

  lemma SkipsDecoded(fs: seq<Field>, key: string)
    requires TextsField(fs, key).Some?
    ensures TextsField(fs, key) == Some(DecodeEach(TextLiterals(ItemsOf(LastValue(fs, key)))))
  {
    FieldTexts(fs, key);
    TextsDecoded(ItemsOf(LastValue(fs, key)));
  }

  lemma EntryDecoded(d: Doc)
    requires ToEntry(d).Some?
    ensures ToEntry(d) == Some(DecodeEntry(EntrySourceOf(d)))
  {
    if d.JObject? {
      FieldLiteral(d.members, "name");
      FieldLiteral(d.members, "replaces");
      SkipsDecoded(d.members, "skips");
      FieldLiteral(d.members, "skipRange");
    }
  }

  lemma {:induction false} EntriesDecoded(ds: seq<Doc>)
    requires ToEntries(ds).Some?
    ensures ToEntries(ds) == Some(DecodeEntries(EntrySources(ds)))
    decreases |ds|
  {
    if ds != [] {
      EntryDecoded(ds[0]);
      EntriesDecoded(ds[1..]);
      assert DecodeEntries(EntrySources(ds)) == [ToEntry(ds[0]).value] + DecodeEntries(EntrySources(ds[1..]));
    }
  }

  lemma EntriesFieldDecoded(fs: seq<Field>, key: string)
    requires EntriesField(fs, key).Some?
    ensures EntriesField(fs, key) == Some(DecodeEntries(EntrySources(ItemsOf(LastValue(fs, key)))))
  {
    FieldEntries(fs, key);
    EntriesDecoded(ItemsOf(LastValue(fs, key)));
  }

  /** A configuration is the decoding of its literals. */
  lemma ConfigDecoded(d: Doc)
    requires ToConfig(d).Some?
    ensures ToConfig(d) == Some(DecodeSource(SourceOf(d)))
  {
    if d.JObject? {
      FieldLiteral(d.members, "schema");
      FieldLiteral(d.members, "name");
      FieldLiteral(d.members, "package");
      EntriesFieldDecoded(d.members, "entries");
      FieldLiteral(d.members, "defaultChannel");
      FieldLiteral(d.members, "description");
    }
  }

  // ---------- the deletion on literals ----------

  function StripEach(literals: seq<seq<Piece>>): (r: seq<seq<Piece>>)
    ensures |r| == |literals|
    ensures forall i :: 0 <= i < |literals| ==> r[i] == StripPieces(literals[i])
  {
    seq(|literals|, i requires 0 <= i < |literals| => StripPieces(literals[i]))
  }

  function StripEntrySource(s: EntrySource): EntrySource {
    EntrySource(StripPieces(s.name), StripPieces(s.replaced), StripEach(s.skips), StripPieces(s.skipRange))
  }

  function StripEntrySources(ss: seq<EntrySource>): (r: seq<EntrySource>)
    ensures |r| == |ss|
    ensures forall i :: 0 <= i < |ss| ==> r[i] == StripEntrySource(ss[i])
  {
    seq(|ss|, i requires 0 <= i < |ss| => StripEntrySource(ss[i]))
  }

  function StripSource(s: Source): Source {
    Source(StripPieces(s.schema), StripPieces(s.name), StripPieces(s.pkg),
           StripEntrySources(s.entries), StripPieces(s.defaultChannel), StripPieces(s.description))
  }

  function StripTexts(ss: seq<string>): (r: seq<string>)
    ensures |r| == |ss|
    ensures forall i :: 0 <= i < |ss| ==> r[i] == StripSpaces(ss[i])
  {
    seq(|ss|, i requires 0 <= i < |ss| => StripSpaces(ss[i]))
  }

  function StripEntry(e: Entry): Entry {
    Entry(StripSpaces(e.name), StripSpaces(e.replaced), StripTexts(e.skips), StripSpaces(e.skipRange))
  }

  function StripEntries(es: seq<Entry>): (r: seq<Entry>)
    ensures |r| == |es|
    ensures forall i :: 0 <= i < |es| ==> r[i] == StripEntry(es[i])
  {
    seq(|es|, i requires 0 <= i < |es| => StripEntry(es[i]))
  }

  function StripConfig(c: Config): Config {
    Config(StripSpaces(c.schema), StripSpaces(c.name), StripSpaces(c.pkg),
           StripEntries(c.entries), StripSpaces(c.defaultChannel), StripSpaces(c.description))
  }

  function StripConfigs(cs: seq<Config>): (r: seq<Config>)
    ensures |r| == |cs|
    ensures forall i :: 0 <= i < |cs| ==> r[i] == StripConfig(cs[i])
  {
    seq(|cs|, i requires 0 <= i < |cs| => StripConfig(cs[i]))
  }

  /** The literal neither escapes a space nor splits a surrogate pair by raw spaces. */
  predicate Plain(ps: seq<Piece>) {
    !EscapesSpace(ps) && !SplitsPair(ps)
  }

  predicate AllPlain(literals: seq<seq<Piece>>) {
    forall i :: 0 <= i < |literals| ==> Plain(literals[i])
  }

  predicate PlainEntry(s: EntrySource) {
    Plain(s.name) && Plain(s.replaced) && AllPlain(s.skips) && Plain(s.skipRange)
  }

  predicate PlainEntries(ss: seq<EntrySource>) {
    forall i :: 0 <= i < |ss| ==> PlainEntry(ss[i])
  }

  predicate PlainSource(s: Source) {
    && Plain(s.schema) && Plain(s.name) && Plain(s.pkg)
    && PlainEntries(s.entries) && Plain(s.defaultChannel) && Plain(s.description)
  }

  /** Deleting the raw spaces of a literal deletes the spaces of its text and no more, exactly if it is plain. */
  lemma PlainExactly(ps: seq<Piece>)
    ensures (Decode(StripPieces(ps)) == StripSpaces(Decode(ps))) == Plain(ps)
  {
    DecodeStripped(ps);
  }

  lemma EachPlainExactly(literals: seq<seq<Piece>>)
    ensures (DecodeEach(StripEach(literals)) == StripTexts(DecodeEach(literals))) == AllPlain(literals)
  {
    var a, b := DecodeEach(StripEach(literals)), StripTexts(DecodeEach(literals));
    forall i | 0 <= i < |literals| ensures a[i] == b[i] <==> Plain(literals[i]) {
      PlainExactly(literals[i]);
    }
  }

  lemma EntryPlainExactly(s: EntrySource)
    ensures (DecodeEntry(StripEntrySource(s)) == StripEntry(DecodeEntry(s))) == PlainEntry(s)
  {
    PlainExactly(s.name);
    PlainExactly(s.replaced);
    EachPlainExactly(s.skips);
    PlainExactly(s.skipRange);
  }

  lemma EntriesPlainExactly(ss: seq<EntrySource>)
    ensures (DecodeEntries(StripEntrySources(ss)) == StripEntries(DecodeEntries(ss))) == PlainEntries(ss)
  {
    var a, b := DecodeEntries(StripEntrySources(ss)), StripEntries(DecodeEntries(ss));
    forall i | 0 <= i < |ss| ensures a[i] == b[i] <==> PlainEntry(ss[i]) {
      EntryPlainExactly(ss[i]);
    }
  }

  lemma SourcePlainExactly(s: Source)
    ensures (DecodeSource(StripSource(s)) == StripConfig(DecodeSource(s))) == PlainSource(s)
  {
    PlainExactly(s.schema);
    PlainExactly(s.name);
    PlainExactly(s.pkg);
    EntriesPlainExactly(s.entries);
    PlainExactly(s.defaultChannel);
    PlainExactly(s.description);
  }

  // ---------- the deletion on objects whose keys have no raw spaces ----------

  predicate CleanKeys(d: Doc) {
    match d
    case JArray(items) => forall i :: 0 <= i < |items| ==> CleanKeys(items[i])
    case JObject(fs) => CleanFields(fs)
    case _ => true
  }

  predicate CleanFields(fs: seq<Field>) {
    forall i :: 0 <= i < |fs| ==> Raw(' ') !in fs[i].key && CleanKeys(fs[i].value)
  }

  lemma DropButLast(fs: seq<Field>)
    requires fs != []
    ensures DropFields(fs)[..|fs| - 1] == DropFields(fs[..|fs| - 1])
  {
  }

  lemma {:induction false} FieldDropped(fs: seq<Field>, key: string)
    requires CleanFields(fs)
    ensures LiteralOf(DropFields(fs), key) == StripPieces(LiteralOf(fs, key))
    ensures LastValue(DropFields(fs), key) == DropSpaces(LastValue(fs, key)) && CleanKeys(LastValue(fs, key))
    ensures TextField(DropFields(fs), key).Some? == TextField(fs, key).Some?
    decreases |fs|
  {
    if fs != [] {
      FieldDropped(fs[..|fs| - 1], key);
      DropButLast(fs);
      StripPiecesExact(fs[|fs| - 1].key);
    }
  }

  lemma {:induction false} TextsDropped(ds: seq<Doc>)
    ensures Texts(DropAll(ds)).Some? == Texts(ds).Some?
    decreases |ds|
  {
    if ds != [] {
      TextsDropped(ds[1..]);
    }
  }

  lemma TextsOfDropped(d: Doc)
    ensures TextsOf(DropSpaces(d)).Some? == TextsOf(d).Some?
  {
    TextsDropped(ItemsOf(d));
  }

  lemma {:induction false} TextsFieldDropped(fs: seq<Field>, key: string)
    requires CleanFields(fs)
    ensures TextsField(DropFields(fs), key).Some? == TextsField(fs, key).Some?
    decreases |fs|
  {
    if fs != [] {
      var last := fs[|fs| - 1];
      TextsFieldDropped(fs[..|fs| - 1], key);
      DropButLast(fs);
      StripPiecesExact(last.key);
      TextsOfDropped(last.value);
    }
  }

  lemma LiteralsDropped(ds: seq<Doc>)
    ensures TextLiterals(DropAll(ds)) == StripEach(TextLiterals(ds))
  {
  }

  lemma SkipsDropped(fs: seq<Field>, key: string)
    requires CleanFields(fs)
    ensures TextLiterals(ItemsOf(LastValue(DropFields(fs), key))) == StripEach(TextLiterals(ItemsOf(LastValue(fs, key))))
  {
    FieldDropped(fs, key);
    LiteralsDropped(ItemsOf(LastValue(fs, key)));
  }

  lemma EntryDropped(d: Doc)
    requires CleanKeys(d)
    ensures EntrySourceOf(DropSpaces(d)) == StripEntrySource(EntrySourceOf(d))
  {
    var fs := MembersOf(d);
    assert MembersOf(DropSpaces(d)) == DropFields(fs);
    FieldDropped(fs, "name");
    FieldDropped(fs, "replaces");
    SkipsDropped(fs, "skips");
    FieldDropped(fs, "skipRange");
  }

  lemma EntryTyped(d: Doc)
    requires CleanKeys(d)
    ensures ToEntry(DropSpaces(d)).Some? == ToEntry(d).Some?
  {
    var fs := MembersOf(d);
    assert MembersOf(DropSpaces(d)) == DropFields(fs);
    FieldDropped(fs, "name");
    FieldDropped(fs, "replaces");
    TextsFieldDropped(fs, "skips");
    FieldDropped(fs, "skipRange");
  }

  lemma {:induction false} EntriesTyped(ds: seq<Doc>)
    requires forall i :: 0 <= i < |ds| ==> CleanKeys(ds[i])
    ensures ToEntries(DropAll(ds)).Some? == ToEntries(ds).Some?
    decreases |ds|
  {
    if ds != [] {
      EntryTyped(ds[0]);
      EntriesTyped(ds[1..]);
    }
  }

  lemma EntriesDropped(ds: seq<Doc>)
    requires forall i :: 0 <= i < |ds| ==> CleanKeys(ds[i])
    ensures EntrySources(DropAll(ds)) == StripEntrySources(EntrySources(ds))
  {
    var a, b := EntrySources(DropAll(ds)), StripEntrySources(EntrySources(ds));
    forall i | 0 <= i < |ds| ensures a[i] == b[i] {
      EntryDropped(ds[i]);
    }
  }

  lemma EntriesOfDropped(d: Doc)
    requires CleanKeys(d)
    ensures EntriesOf(DropSpaces(d)).Some? == EntriesOf(d).Some?
  {
    EntriesTyped(ItemsOf(d));
  }

  lemma {:induction false} EntriesFieldDropped(fs: seq<Field>, key: string)
    requires CleanFields(fs)
    ensures EntriesField(DropFields(fs), key).Some? == EntriesField(fs, key).Some?
    decreases |fs|
  {
    if fs != [] {
      var last := fs[|fs| - 1];
      EntriesFieldDropped(fs[..|fs| - 1], key);
      DropButLast(fs);
      StripPiecesExact(last.key);
      EntriesOfDropped(last.value);
    }
  }

  lemma EntriesLiteralsDropped(fs: seq<Field>, key: string)
    requires CleanFields(fs)
    ensures EntrySources(ItemsOf(LastValue(DropFields(fs), key))) == StripEntrySources(EntrySources(ItemsOf(LastValue(fs, key))))
  {
    FieldDropped(fs, key);
    EntriesDropped(ItemsOf(LastValue(fs, key)));
  }

  lemma SourceDropped(d: Doc)
    requires CleanKeys(d)
    ensures SourceOf(DropSpaces(d)) == StripSource(SourceOf(d))
  {
    var fs := MembersOf(d);
    assert MembersOf(DropSpaces(d)) == DropFields(fs);
    FieldDropped(fs, "schema");
    FieldDropped(fs, "name");
    FieldDropped(fs, "package");
    EntriesLiteralsDropped(fs, "entries");
    FieldDropped(fs, "defaultChannel");
    FieldDropped(fs, "description");
  }

  lemma ConfigTyped(d: Doc)
    requires CleanKeys(d)
    ensures ToConfig(DropSpaces(d)).Some? == ToConfig(d).Some?
  {
    var fs := MembersOf(d);
    assert MembersOf(DropSpaces(d)) == DropFields(fs);
    FieldDropped(fs, "schema");
    FieldDropped(fs, "name");
    FieldDropped(fs, "package");
    EntriesFieldDropped(fs, "entries");
    FieldDropped(fs, "defaultChannel");
    FieldDropped(fs, "description");
  }

  // ---------- the deletion on keys alone ----------

  /** The raw spaces of all keys deleted, and those of all values kept. */
  function MendKeys(d: Doc): Doc {
    match d
    case JArray(items) => JArray(MendAll(items))
    case JObject(fs) => JObject(MendFields(fs))
    case _ => d
  }

  function MendAll(ds: seq<Doc>): (r: seq<Doc>)
    ensures |r| == |ds|
    ensures forall i :: 0 <= i < |ds| ==> r[i] == MendKeys(ds[i])
  {
    if ds == [] then [] else [MendKeys(ds[0])] + MendAll(ds[1..])
  }

  function MendFields(fs: seq<Field>): (r: seq<Field>)
    ensures |r| == |fs|
    ensures forall i :: 0 <= i < |fs| ==> r[i] == Field(StripPieces(fs[i].key), MendKeys(fs[i].value))
  {
    if fs == [] then [] else [Field(StripPieces(fs[0].key), MendKeys(fs[0].value))] + MendFields(fs[1..])
  }

  /** The mended document has clean keys, and the deletion does to it what it does to the original. */
  lemma {:induction false} Mended(d: Doc)
    ensures CleanKeys(MendKeys(d)) && DropSpaces(MendKeys(d)) == DropSpaces(d)
    decreases d
  {
    match d
    case JArray(items) =>
      forall i | 0 <= i < |items|
        ensures CleanKeys(MendAll(items)[i]) && DropSpaces(MendAll(items)[i]) == DropSpaces(items[i])
      {
        Mended(items[i]);
      }
      assert DropAll(MendAll(items)) == DropAll(items);
    case JObject(fs) =>
      var mended := MendFields(fs);
      forall i | 0 <= i < |fs|
        ensures Raw(' ') !in mended[i].key && CleanKeys(mended[i].value)
        ensures DropFields(mended)[i] == DropFields(fs)[i]
      {
        Mended(fs[i].value);
        StripPiecesExact(fs[i].key);
        StripPiecesExact(StripPieces(fs[i].key));
      }
      assert DropFields(mended) == DropFields(fs);
    case _ =>
  }

  const CONFIG_KEYS: set<string> := {"schema", "name", "package", "entries", "defaultChannel", "description"}
  const ENTRY_KEYS: set<string> := {"name", "replaces", "skips", "skipRange"}

  /** The deletion of raw spaces does not turn the key into one of `keys`. */
  predicate Stable(k: seq<Piece>, keys: set<string>) {
    Raw(' ') in k ==> Decode(StripPieces(k)) !in keys
  }

  /** The key is the given one after the deletion exactly if it was before. */
  predicate Same(k: seq<Piece>, key: string) {
    Decode(StripPieces(k)) == key <==> Decode(k) == key
  }

  predicate Spaceless(keys: set<string>) {
    forall key :: key in keys ==> ' ' !in key
  }

  lemma ProjectedKeys()
    ensures Spaceless(CONFIG_KEYS) && Spaceless(ENTRY_KEYS)
  {
  }

  /** A literal decodes to a text with a space exactly if it has a raw or an escaped one. */
  lemma {:induction false} SpaceDecoded(ps: seq<Piece>)
    ensures ' ' in Decode(ps) <==> Raw(' ') in ps || EscapesSpace(ps)
    decreases |ps|
  {
    if ps == [] {
    } else if |ps| > 1 && IsHigh(ps[0]) && IsLow(ps[1]) {
      SpaceDecoded(ps[2..]);
      EscapesLater(ps, 2);
      assert ps == [ps[0], ps[1]] + ps[2..];
    } else {
      SpaceDecoded(ps[1..]);
      assert ps == [ps[0]] + ps[1..];
      if DecodeOne(ps[0]) != ' ' {
        EscapesLater(ps, 1);
      }
    }
  }

  /** A key is stable exactly if the deletion neither makes it nor unmakes it any of the projected keys. */
  lemma StableExactly(k: seq<Piece>, keys: set<string>)
    requires Spaceless(keys)
    ensures Stable(k, keys) <==> forall key :: key in keys ==> Same(k, key)
  {
    StripPiecesExact(k);
    SpaceDecoded(k);
    if forall key :: key in keys ==> Same(k, key) {
      var mended := Decode(StripPieces(k));
      assert mended in keys ==> Same(k, mended);
    }
  }

  predicate StableEntry(d: Doc) {
    d.JObject? ==> forall i :: 0 <= i < |d.members| ==> Stable(d.members[i].key, ENTRY_KEYS)
  }

  predicate StableEntries(d: Doc) {
    d.JArray? ==> forall i :: 0 <= i < |d.items| ==> StableEntry(d.items[i])
  }

  /** No key of the object or of its entries becomes a projected one. */
  predicate StableKeys(d: Doc) {
    d.JObject? ==>
      forall i :: 0 <= i < |d.members| ==>
        Stable(d.members[i].key, CONFIG_KEYS) && (Decode(d.members[i].key) == "entries" ==> StableEntries(d.members[i].value))
  }

  predicate AllSame(fs: seq<Field>, key: string) {
    forall i :: 0 <= i < |fs| ==> Same(fs[i].key, key)
  }

  lemma AllStable(fs: seq<Field>, keys: set<string>, key: string)
    requires Spaceless(keys) && key in keys
    requires forall i :: 0 <= i < |fs| ==> Stable(fs[i].key, keys)
    ensures AllSame(fs, key)
  {
    forall i | 0 <= i < |fs| ensures Same(fs[i].key, key) {
      StableExactly(fs[i].key, keys);
    }
  }

  lemma MendButLast(fs: seq<Field>)
    requires fs != []
    ensures MendFields(fs)[..|fs| - 1] == MendFields(fs[..|fs| - 1])
  {
  }

  lemma SetTextMended(before: Option<string>, f: Field, key: string)
    requires Same(f.key, key)
    ensures SetText(before, Field(StripPieces(f.key), MendKeys(f.value)), key) == SetText(before, f, key)
  {
  }

  lemma {:induction false} TextFieldMended(fs: seq<Field>, key: string)
    requires AllSame(fs, key)
    ensures TextField(MendFields(fs), key) == TextField(fs, key)
    decreases |fs|
  {
    if fs != [] {
      var last := fs[|fs| - 1];
      TextFieldMended(fs[..|fs| - 1], key);
      MendButLast(fs);
      assert MendFields(fs)[|fs| - 1] == Field(StripPieces(last.key), MendKeys(last.value));
      SetTextMended(TextField(fs[..|fs| - 1], key), last, key);
    }
  }

  lemma {:induction false} TextsMended(ds: seq<Doc>)
    ensures Texts(MendAll(ds)) == Texts(ds)
    decreases |ds|
  {
    if ds != [] {
      TextsMended(ds[1..]);
    }
  }

  lemma TextsOfMended(d: Doc)
    ensures TextsOf(MendKeys(d)) == TextsOf(d)
  {
    TextsMended(ItemsOf(d));
  }

  lemma {:induction false} TextsFieldMended(fs: seq<Field>, key: string)
    requires AllSame(fs, key)
    ensures TextsField(MendFields(fs), key) == TextsField(fs, key)
    decreases |fs|
  {
    if fs != [] {
      TextsFieldMended(fs[..|fs| - 1], key);
      MendButLast(fs);
      assert Same(fs[|fs| - 1].key, key);
      TextsOfMended(fs[|fs| - 1].value);
    }
  }

  lemma EntryMended(d: Doc)
    requires StableEntry(d)
    ensures ToEntry(MendKeys(d)) == ToEntry(d)
  {
    if d.JObject? {
      var fs := d.members;
      ProjectedKeys();
      AllStable(fs, ENTRY_KEYS, "name");
      AllStable(fs, ENTRY_KEYS, "replaces");
      AllStable(fs, ENTRY_KEYS, "skips");
      AllStable(fs, ENTRY_KEYS, "skipRange");
      TextFieldMended(fs, "name");
      TextFieldMended(fs, "replaces");
      TextsFieldMended(fs, "skips");
      TextFieldMended(fs, "skipRange");
    }
  }

  lemma {:induction false} EntriesMended(ds: seq<Doc>)
    requires forall i :: 0 <= i < |ds| ==> StableEntry(ds[i])
    ensures ToEntries(MendAll(ds)) == ToEntries(ds)
    decreases |ds|
  {
    if ds != [] {
      EntryMended(ds[0]);
      EntriesMended(ds[1..]);
    }
  }

  lemma EntriesOfMended(d: Doc)
    requires StableEntries(d)
    ensures EntriesOf(MendKeys(d)) == EntriesOf(d)
  {
    EntriesMended(ItemsOf(d));
  }

  lemma {:induction false} EntriesFieldMended(fs: seq<Field>, key: string)
    requires AllSame(fs, key)
    requires forall i :: 0 <= i < |fs| && Decode(fs[i].key) == key ==> StableEntries(fs[i].value)
    ensures EntriesField(MendFields(fs), key) == EntriesField(fs, key)
    decreases |fs|
  {
    if fs != [] {
      var last := fs[|fs| - 1];
      EntriesFieldMended(fs[..|fs| - 1], key);
      MendButLast(fs);
      assert Same(last.key, key);
      if Decode(last.key) == key {
        EntriesOfMended(last.value);
      }
    }
  }

  /** Where no key becomes a projected one, mending the keys changes nothing that is projected. */
  lemma ConfigMended(d: Doc)
    requires StableKeys(d)
    ensures ToConfig(MendKeys(d)) == ToConfig(d)
  {
    if d.JObject? {
      var fs := d.members;
      ProjectedKeys();
      AllStable(fs, CONFIG_KEYS, "schema");
      AllStable(fs, CONFIG_KEYS, "name");
      AllStable(fs, CONFIG_KEYS, "package");
      AllStable(fs, CONFIG_KEYS, "entries");
      AllStable(fs, CONFIG_KEYS, "defaultChannel");
      AllStable(fs, CONFIG_KEYS, "description");
      TextFieldMended(fs, "schema");
      TextFieldMended(fs, "name");
      TextFieldMended(fs, "package");
      EntriesFieldMended(fs, "entries");
      TextFieldMended(fs, "defaultChannel");
      TextFieldMended(fs, "description");
    }
  }

  // ---------- the deletion on an object ----------

  /**
    What the deletion makes of any object.  Take it with the spaces in its keys
    deleted: the projection fails for it exactly if it fails after the whole
    deletion, and otherwise the deletion has stripped every projected string
    exactly if the literals projected are plain.  If no key becomes a projected
    one, it projects as the object itself.
  */
  lemma StripToConfig(d: Doc)
    ensures ToConfig(DropSpaces(d)).Some? == ToConfig(MendKeys(d)).Some?
    ensures ToConfig(MendKeys(d)).Some? ==>
              (ToConfig(DropSpaces(d)) == Some(StripConfig(ToConfig(MendKeys(d)).value))) == PlainSource(SourceOf(MendKeys(d)))
    ensures StableKeys(d) ==> ToConfig(MendKeys(d)) == ToConfig(d)
  {
    var m := MendKeys(d);
    Mended(d);
    ConfigTyped(m);
    if ToConfig(m).Some? {
      ConfigDecoded(m);
      ConfigDecoded(DropSpaces(m));
      SourceDropped(m);
      SourcePlainExactly(SourceOf(m));
    }
    if StableKeys(d) {
      ConfigMended(d);
    }
  }

  lemma {:induction false} ConfigsTyped(ds: seq<Doc>)
    ensures ToConfigs(DropAll(ds)).Some? == ToConfigs(MendAll(ds)).Some?
    decreases |ds|
  {
    if ds != [] {
      StripToConfig(ds[0]);
      ConfigsTyped(ds[1..]);
    }
  }

  lemma {:induction false} ConfigsAt(ds: seq<Doc>, i: nat)
    requires ToConfigs(ds).Some? && i < |ds|
    ensures |ToConfigs(ds).value| == |ds| && ToConfig(ds[i]) == Some(ToConfigs(ds).value[i])
    decreases |ds|
  {
    if i > 0 {
      ConfigsAt(ds[1..], i - 1);
    } else if |ds| > 1 {
      ConfigsAt(ds[1..], 0);
    }
  }

  predicate PlainDocs(ds: seq<Doc>) {
    forall i :: 0 <= i < |ds| ==> PlainSource(SourceOf(MendKeys(ds[i])))
  }

  /** The same for any number of objects. */
  lemma StripToConfigs(ds: seq<Doc>)
    ensures ToConfigs(DropAll(ds)).Some? == ToConfigs(MendAll(ds)).Some?
    ensures ToConfigs(MendAll(ds)).Some? ==>
              (ToConfigs(DropAll(ds)) == Some(StripConfigs(ToConfigs(MendAll(ds)).value))) == PlainDocs(ds)
  {
    ConfigsTyped(ds);
    var ms := MendAll(ds);
    if ds == [] {
      assert StripConfigs([]) == [];
    } else if ToConfigs(ms).Some? {
      var a, b := ToConfigs(DropAll(ds)).value, StripConfigs(ToConfigs(ms).value);
      ConfigsAt(DropAll(ds), 0);
      ConfigsAt(ms, 0);
      forall i | 0 <= i < |ds| ensures a[i] == b[i] <==> PlainSource(SourceOf(MendKeys(ds[i]))) {
        ConfigsAt(DropAll(ds), i);
        ConfigsAt(ms, i);
        StripToConfig(ds[i]);
      }
      assert |a| == |b| == |ds|;
      assert a == b <==> forall i :: 0 <= i < |ds| ==> a[i] == b[i];
      assert PlainDocs(ds) <==> forall i :: 0 <= i < |ds| ==> a[i] == b[i];
    }
  }

  predicate StableDocs(ds: seq<Doc>) {
    forall i :: 0 <= i < |ds| ==> StableKeys(ds[i])
  }

  lemma {:induction false} StableConfigs(ds: seq<Doc>)
    requires StableDocs(ds)
    ensures ToConfigs(MendAll(ds)) == ToConfigs(ds)
    decreases |ds|
  {
    if ds != [] {
      ConfigMended(ds[0]);
      StableConfigs(ds[1..]);
    }
  }

  // ---------- keys that become projected ones ----------

  function Raws(s: string): (ps: seq<Piece>)
    ensures |ps| == |s|
    ensures forall i :: 0 <= i < |s| ==> ps[i] == Raw(s[i])
  {
    seq(|s|, i requires 0 <= i < |s| => Raw(s[i]))
  }

  lemma {:induction false} RawsDecoded(s: string)
    ensures Decode(Raws(s)) == s
    decreases |s|
  {
    if s != "" {
      RawsDecoded(s[1..]);
      assert Raws(s)[1..] == Raws(s[1..]);
    }
  }

  lemma {:induction false} RawsStripped(s: string)
    ensures StripPieces(Raws(s)) == Raws(StripSpaces(s))
    decreases |s|
  {
    if s != "" {
      RawsStripped(s[1..]);
      assert Raws(s)[1..] == Raws(s[1..]);
      assert s[0] != ' ' ==> Raws([s[0]] + StripSpaces(s[1..])) == [Raw(s[0])] + Raws(StripSpaces(s[1..]));
    }
  }

  /** Any projected key spelled with a space, at any place, is the key after the deletion and was not before. */
  lemma SpacedKey(keys: set<string>, key: string, n: nat)
    requires Spaceless(keys) && key in keys && n <= |key|
    ensures var k := Raws(key[..n] + " " + key[n..]);
            Decode(StripPieces(k)) == key && Decode(k) != key && !Stable(k, keys)
  {
    var spelled := key[..n] + " " + key[n..];
    RawsStripped(spelled);
    StripConcat3(key[..n], " ", key[n..]);
    StripChars(key[..n]);
    StripChars(" ");
    StripChars(key[n..]);
    StripChars(key);
    assert StripSpaces(" ") == "" by { assert " "[1..] == ""; }
    assert StripSpaces(spelled) == key[..n] + "" + key[n..] == key;
    RawsDecoded(key);
    RawsDecoded(spelled);
    assert spelled[n] == ' ' && Raws(spelled)[n] == Raw(' ');
  }

  /** A member with such a key is not projected, but after the deletion its value is the field's. */
  lemma MendedMember(fs: seq<Field>, k: seq<Piece>, key: string, ps: seq<Piece>)
    requires Decode(StripPieces(k)) == key && Decode(k) != key
    ensures var all := fs + [Field(k, JString(ps))];
            && TextField(all, key) == TextField(fs, key)
            && (TextField(DropFields(fs), key).Some? ==> TextField(DropFields(all), key) == Some(Decode(StripPieces(ps))))
  {
    var all := fs + [Field(k, JString(ps))];
    assert all[..|all| - 1] == fs;
    DropButLast(all);
  }
}
