/**
  From the parsed catalog to the listing: projection of the objects to the
  fields of DeclarativeConfig and ChannelEntry that are strings or lists of
  strings and entries (pkg/api/v1alpha3/types.go:197-202, 239-248), and the
  lines that ListCatalogs logs for them (pkg/manifest/manifest.go:133-155).
*/
module Listing {
  import opened Wrappers
  import opened Json
  import opened Decoding
  import opened Catalog
  import Log

  datatype Entry = Entry(name: string, replaced: string, skips: seq<string>, skipRange: string)

  datatype Config = Config(
    schema: string, name: string, pkg: string,
    entries: seq<Entry>, defaultChannel: string, description: string)

  // ---------- projection ----------

  /** A string field: the last occurrence counts, null leaves it as it was, anything else is an error. */
  function TextField(fs: seq<Field>, key: string): Option<string> {
    if fs == [] then Some("") else SetText(TextField(fs[..|fs| - 1], key), fs[|fs| - 1], key)
  }

  function SetText(before: Option<string>, f: Field, key: string): Option<string> {
    if before.None? || Decode(f.key) != key || f.value.JNull? then before
    else if f.value.JString? then Some(Decode(f.value.pieces))
    else None
  }

  function TextOf(d: Doc): Option<string> {
    match d
    case JNull => Some("")
    case JString(ps) => Some(Decode(ps))
    case _ => None
  }

  function Texts(ds: seq<Doc>): Option<seq<string>> {
    if ds == [] then Some([])
    else match (TextOf(ds[0]), Texts(ds[1..]))
      case (Some(s), Some(rest)) => Some([s] + rest)
      case _ => None
  }

  function TextsOf(d: Doc): Option<seq<string>> {
    match d
    case JNull => Some([])
    case JArray(items) => Texts(items)
    case _ => None
  }

  function TextsField(fs: seq<Field>, key: string): Option<seq<string>> {
    if fs == [] then Some([])
    else
      var before, last := TextsField(fs[..|fs| - 1], key), fs[|fs| - 1];
      if before.None? || Decode(last.key) != key then before else TextsOf(last.value)
  }

  function ToEntry(d: Doc): Option<Entry> {
    if d.JNull? then Some(Entry("", "", [], ""))
    else if !d.JObject? then None
    else
      EntryOf(TextField(d.members, "name"), TextField(d.members, "replaces"),
              TextsField(d.members, "skips"), TextField(d.members, "skipRange"))
  }

  function EntryOf(name: Option<string>, replaced: Option<string>, skips: Option<seq<string>>, range: Option<string>): Option<Entry> {
    if name.None? || replaced.None? || skips.None? || range.None? then None
    else Some(Entry(name.value, replaced.value, skips.value, range.value))
  }

  function ToEntries(ds: seq<Doc>): Option<seq<Entry>> {
    if ds == [] then Some([])
    else match (ToEntry(ds[0]), ToEntries(ds[1..]))
      case (Some(e), Some(rest)) => Some([e] + rest)
      case _ => None
  }

  function EntriesField(fs: seq<Field>, key: string): Option<seq<Entry>> {
    if fs == [] then Some([])
    else
      var before, last := EntriesField(fs[..|fs| - 1], key), fs[|fs| - 1];
      if before.None? || Decode(last.key) != key then before else EntriesOf(last.value)
  }

  function EntriesOf(d: Doc): Option<seq<Entry>> {
    match d
    case JNull => Some([])
    case JArray(items) => ToEntries(items)
    case _ => None
  }

  function ToConfig(d: Doc): Option<Config> {
    if d.JNull? then Some(Config("", "", "", [], "", ""))
    else if !d.JObject? then None
    else
      ConfigOf(TextField(d.members, "schema"), TextField(d.members, "name"), TextField(d.members, "package"),
               EntriesField(d.members, "entries"), TextField(d.members, "defaultChannel"), TextField(d.members, "description"))
  }

  function ConfigOf(schema: Option<string>, name: Option<string>, pkg: Option<string>,
                    entries: Option<seq<Entry>>, channel: Option<string>, description: Option<string>): Option<Config> {
    if schema.None? || name.None? || pkg.None? || entries.None? || channel.None? || description.None? then None
    else Some(Config(schema.value, name.value, pkg.value, entries.value, channel.value, description.value))
  }

  function ToConfigs(ds: seq<Doc>): Option<seq<Config>> {
    if ds == [] then Some([])
    else match (ToConfig(ds[0]), ToConfigs(ds[1..]))
      case (Some(c), Some(rest)) => Some([c] + rest)
      case _ => None
  }

  /** readOperatorCatalog on the contents of the file. */
  function ReadConfigs(data: string): Option<seq<Config>> {
    match ReadObjects(data)
    case None => None
    case Some(docs) => ToConfigs(docs)
  }

  // ---------- the lines logged ----------

  function SkipLines(skips: seq<string>): seq<Log.Line> {
    if skips == [] then [] else [Log.Skips(skips[0])] + SkipLines(skips[1..])
  }

  function EntryLines(e: Entry): seq<Log.Line> {
    [Log.EntryName(e.name)]
    + (if e.replaced != "" then [Log.Replaces(e.replaced)] else [])
    + SkipLines(e.skips)
    + (if e.skipRange != "" then [Log.SkipRange(e.skipRange)] else [])
  }

  function EntriesLines(es: seq<Entry>): seq<Log.Line> {
    if es == [] then [] else EntryLines(es[0]) + EntriesLines(es[1..])
  }

  function ConfigLines(c: Config): seq<Log.Line> {
    if c.schema == "olm.channel" then [Log.Channel(c.name)] + EntriesLines(c.entries)
    else if c.schema == "olm.bundle" then [Log.Bundle(c.name)]
    else []
  }

  function CatalogLines(cs: seq<Config>): seq<Log.Line> {
    if cs == [] then [] else ConfigLines(cs[0]) + CatalogLines(cs[1..])
  }

  lemma Regroup(a: seq<Log.Line>, b: seq<Log.Line>, c: seq<Log.Line>)
    ensures a + (b + c) == (a + b) + c
  {
  }

  lemma RegroupTwo(a: seq<Log.Line>, x: Log.Line, y: Log.Line, c: seq<Log.Line>)
    ensures a + [x] + [y] + c == a + ([x, y] + c)
  {
    assert a + [x] + [y] == a + [x, y];
    Regroup(a, [x, y], c);
  }

  lemma SkipLinesAt(skips: seq<string>, i: nat)
    requires i < |skips|
    ensures SkipLines(skips[i..]) == [Log.Skips(skips[i])] + SkipLines(skips[i + 1..])
  {
    assert skips[i..][1..] == skips[i + 1..];
  }

  lemma EntriesLinesAt(es: seq<Entry>, i: nat)
    requires i < |es|
    ensures EntriesLines(es[i..]) == EntryLines(es[i]) + EntriesLines(es[i + 1..])
  {
    assert es[i..][1..] == es[i + 1..];
  }

  lemma CatalogLinesAt(cs: seq<Config>, i: nat)
    requires i < |cs|
    ensures CatalogLines(cs[i..]) == ConfigLines(cs[i]) + CatalogLines(cs[i + 1..])
  {
    assert cs[i..][1..] == cs[i + 1..];
  }
}
