/**
  Extracting image layers into a directory (ExtractLayersOCI and untar,
  pkg/manifest/manifest.go:84-105, 162-208), as a fold over a file tree.

  A layer blob is what gzip and tar make of a file's bytes: not a gzip stream,
  or a sequence of entries that ends well or in a read error.  The decoder
  itself is a parameter.
*/
module Extraction {
  import opened Wrappers
  import opened Text
  import opened FileTree

  // ---------- archives ----------

  /** A regular entry whose data breaks off has `intact` false; `data` is then what could be read. */
  datatype Kind = Directory | Regular(data: string, intact: bool) | Other

  datatype Entry = Entry(name: string, kind: Kind)

  datatype Blob = NotGzip | Archive(entries: seq<Entry>, endsWell: bool)

  type Decoder = string -> Blob

  datatype Failure =
    | BadDigest
    | NoColon      // index out of range at line 92: the program panics
    | NoBlob
    | GzipFailed
    | NextFailed
    | MkdirFailed
    | CreateFailed
    | CopyFailed

  datatype Result = Result(files: Files, failure: Option<Failure>) {
    predicate Ok() {
      failure.None?
    }
  }

  // ---------- what an archive asks for ----------

  /** One effect on the tree, or a failure that stops the extraction. */
  datatype Action = Mkdir(p: Path) | Write(p: Path, data: string, intact: bool) | Halt(failure: Failure)

  /** `needle` is the trimmed label. */
  function EntryActions(base: string, needle: string, e: Entry): seq<Action> {
    if Contains(e.name, needle) then
      match e.kind
      case Directory => if e.name != "./" then [Mkdir(Resolve(base + "/" + e.name))] else []
      case Regular(data, intact) =>
        if DirectoryName(base + "/" + e.name) then [Halt(CreateFailed)]
        else [Write(Resolve(base + "/" + e.name), data, intact)]
      case Other => []
    else if e.kind.Regular? && !e.kind.intact then [Halt(NextFailed)]
    else []
  }

  function EntriesActions(base: string, needle: string, es: seq<Entry>): seq<Action> {
    if es == [] then [] else EntryActions(base, needle, es[0]) + EntriesActions(base, needle, es[1..])
  }

  function BlobActions(base: string, needle: string, blob: Blob): seq<Action> {
    match blob
    case NotGzip => [Halt(GzipFailed)]
    case Archive(es, endsWell) =>
      EntriesActions(base, needle, es) + (if endsWell then [] else [Halt(NextFailed)])
  }

  // ---------- performing actions ----------

  function Perform(fs: Files, a: Action): Result {
    match a
    case Mkdir(p) =>
      (match MakeAll(fs, p)
       case None => Result(fs, Some(MkdirFailed))
       case Some(next) => Result(next, None))
    case Write(p, data, intact) =>
      if !CanCreate(fs, p) then Result(fs, Some(CreateFailed))
      else Result(fs[p := File(data)], if intact then None else Some(CopyFailed))
    case Halt(failure) => Result(fs, Some(failure))
  }

  function Run(fs: Files, acts: seq<Action>): Result
    decreases |acts|
  {
    if acts == [] then Result(fs, None)
    else
      var first := Perform(fs, acts[0]);
      if first.Ok() then Run(first.files, acts[1..]) else first
  }

  // ---------- layers ----------

  /** `strings.Split(digest, ":")[1]` */
  function DigestHex(digest: string): Option<string> {
    var parts := Split(digest, ":");
    if |parts| < 2 then None else Some(parts[1])
  }

  /** A layer's decoded blob, or why there is none. */
  datatype Layer = Unreadable(failure: Failure) | Readable(blob: Blob)

  /**
    Lines 89 to 95 and 166: the digest check, the index into its parts, and the
    blob in the tree as it is now.  A directory can be opened, but not read as
    gzip; the digest "sha256:" names the directory of all blobs.
  */
  function ReadLayer(fs: Files, dec: Decoder, from: string, digest: string): Layer {
    if !Contains(digest, "sha256") then Unreadable(BadDigest)
    else match DigestHex(digest)
      case None => Unreadable(NoColon)
      case Some(hex) =>
        var p := Resolve(from + "/" + hex);
        if IsDir(fs, p) then Unreadable(GzipFailed)
        else match ReadFile(fs, p)
          case None => Unreadable(NoBlob)
          case Some(data) => Readable(dec(data))
  }

  function LayerActions(fs: Files, dec: Decoder, from: string, base: string, needle: string, digest: string): seq<Action> {
    match ReadLayer(fs, dec, from, digest)
    case Unreadable(failure) => [Halt(failure)]
    case Readable(blob) => BlobActions(base, needle, blob)
  }

  function RunLayers(fs: Files, dec: Decoder, from: string, base: string, needle: string, digests: seq<string>): Result
    decreases |digests|
  {
    if digests == [] then Result(fs, None)
    else
      var r := Run(fs, LayerActions(fs, dec, from, base, needle, digests[0]));
      if r.Ok() then RunLayers(r.files, dec, from, base, needle, digests[1..]) else r
  }

  /** ExtractLayersOCI: nothing is done unless the labelled directory does not exist. */
  function Extract(fs: Files, dec: Decoder, from: string, base: string, tag: string, digests: seq<string>): Result {
    if Missing(fs, Resolve(base + tag)) then RunLayers(fs, dec, from, base, TrimSlashes(tag), digests)
    else Result(fs, None)
  }

  // ---------- laws of Run ----------

  lemma {:induction false} RunConcat(fs: Files, a: seq<Action>, b: seq<Action>)
    ensures Run(fs, a + b) == if Run(fs, a).Ok() then Run(Run(fs, a).files, b) else Run(fs, a)
    decreases |a|
  {
    if a == [] {
      assert a + b == b;
    } else {
      assert (a + b)[0] == a[0] && (a + b)[1..] == a[1..] + b;
      var first := Perform(fs, a[0]);
      if first.Ok() {
        RunConcat(first.files, a[1..], b);
      }
    }
  }

  lemma RunOne(fs: Files, a: Action)
    ensures Run(fs, [a]) == Perform(fs, a)
  {
    assert [a][1..] == [];
    assert Perform(fs, a).Ok() ==> Perform(fs, a) == Result(Perform(fs, a).files, None);
  }

  lemma PerformWellFormed(fs: Files, a: Action)
    requires WellFormed(fs)
    ensures WellFormed(Perform(fs, a).files)
  {
    if a.Mkdir? {
      MakeAllExact(fs, a.p);
    } else if a.Write? && CanCreate(fs, a.p) {
      WriteWellFormed(fs, a.p, a.data);
    }
  }

  /** The tree stays well formed through every action, whether it succeeds or fails. */
  lemma {:induction false} RunWellFormed(fs: Files, acts: seq<Action>)
    requires WellFormed(fs)
    ensures WellFormed(Run(fs, acts).files)
    decreases |acts|
  {
    if acts != [] {
      PerformWellFormed(fs, acts[0]);
      if Perform(fs, acts[0]).Ok() {
        RunWellFormed(Perform(fs, acts[0]).files, acts[1..]);
      }
    }
  }

  lemma {:induction false} RunLayersWellFormed(fs: Files, dec: Decoder, from: string, base: string, needle: string, digests: seq<string>)
    requires WellFormed(fs)
    ensures WellFormed(RunLayers(fs, dec, from, base, needle, digests).files)
    decreases |digests|
  {
    if digests != [] {
      var acts := LayerActions(fs, dec, from, base, needle, digests[0]);
      RunWellFormed(fs, acts);
      if Run(fs, acts).Ok() {
        RunLayersWellFormed(Run(fs, acts).files, dec, from, base, needle, digests[1..]);
      }
    }
  }
}
