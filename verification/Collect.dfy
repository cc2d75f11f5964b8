/**
  The operator branch of Collect (pkg/index/list-images.go:50-143): the cache
  key, the skip-if-present guard, the chain of descriptors, the extraction and
  the listing.

  The decoders of the descriptor files and of the layer blobs are parameters,
  and so is what `Mirror.Run` does: it succeeds or fails, and leaves any
  contents it likes below the copy directory.
*/
module Collecting {
  import opened Wrappers
  import opened Text
  import opened FileTree
  import opened Extraction
  import opened Disks
  import opened Manifests
  import Listing
  import Log

  // ---------- the inputs of a run ----------

  datatype Options = Options(dir: string, reference: string, imageIndex: string)

  /** A descriptor file read into a pointer: the JSON text `null` leaves the pointer nil. */
  datatype Decoded<+T> = Malformed | Nil | Value(value: T)

  /** The digests of an index or a manifest. */
  datatype Schema = Schema(manifests: seq<string>, config: string, layers: seq<string>)

  /** How file contents decode: layer blobs, index and manifest, and the label of an image config. */
  datatype Codec = Codec(gunzip: Decoder, schema: string -> Decoded<Schema>, config: string -> Decoded<string>)

  datatype Pull = Pull(ok: bool, content: Files)

  // ---------- the outcome of a run ----------

  datatype Stage =
    | MakingCopyDir
    | Pulling
    | ReadingIndex
    | FindingManifest
    | CheckingDigest
    | ReadingManifest
    | ReadingConfig
    | Extracting(failure: Failure)
    | ListingConfigs

  /** `panicked` tells a nil pointer or an index out of range from an error return. */
  datatype Outcome = Done | Stopped(stage: Stage, panicked: bool)

  /** `fetching` and `listing` together are the lines logged. */
  datatype RunResult = RunResult(
    files: Files, outcome: Outcome, pulled: bool,
    fetching: seq<Log.Line>, listing: seq<Log.Line>)

  // ---------- keys and paths ----------

  /** Lines 61 and 62: the last part of the reference, with every colon made a slash. */
  function Key(reference: string): string {
    var hld := Split(reference, "/");
    ReplaceAll(hld[|hld| - 1], ":", "/")
  }

  function CacheDir(o: Options): string {
    Join([o.dir, "hold-operators", Key(o.reference)], "/")
  }

  function CopyDir(o: Options): string {
    Join([o.dir, "operator-images", Key(o.reference)], "/")
  }

  function BlobsDir(o: Options): string {
    Join([o.dir, "operator-images", Key(o.reference), "blobs/sha256"], "/")
  }

  function BlobName(o: Options, hex: string): string {
    Join([o.dir, "operator-images", Key(o.reference), "blobs/sha256", hex], "/")
  }

  /** Line 128 joins the label of line 52, not the image's label of line 115. */
  function ConfigsDir(o: Options): string {
    Join([o.dir, "hold-operators", Key(o.reference), "/configs"], "/")
  }

  // ---------- the descriptor chain, lines 84 to 116 ----------

  datatype Described =
    | Unusable(stage: Stage, panicked: bool, lines: seq<Log.Line>)
    | Usable(tag: string, layers: seq<string>, lines: seq<Log.Line>)

  function ReadSchema(fs: Files, codec: Codec, name: string): Decoded<Schema> {
    match ReadFile(fs, Resolve(name))
    case None => Malformed
    case Some(data) => codec.schema(data)
  }

  function ReadConfig(fs: Files, codec: Codec, name: string): Decoded<string> {
    match ReadFile(fs, Resolve(name))
    case None => Malformed
    case Some(data) => codec.config(data)
  }

  function Describe(fs: Files, o: Options, codec: Codec): Described {
    match ReadSchema(fs, codec, CopyDir(o) + "/" + "index.json")
    case Malformed => Unusable(ReadingIndex, false, [])
    case Nil => Unusable(ReadingIndex, true, [])
    case Value(index) =>
      if index.manifests == [] then Unusable(FindingManifest, false, [])
      else if !Contains(index.manifests[0], "sha256") then Unusable(CheckingDigest, false, [])
      else
        match DigestHex(index.manifests[0])
        case None => Unusable(CheckingDigest, true, [])
        case Some(hex) => DescribeManifest(fs, o, codec, hex)
  }

  function DescribeManifest(fs: Files, o: Options, codec: Codec, hex: string): Described {
    var lines := [Log.ManifestDigest(hex)];
    match ReadSchema(fs, codec, BlobName(o, hex))
    case Malformed => Unusable(ReadingManifest, false, lines)
    case Nil => Unusable(ReadingManifest, true, lines)
    case Value(manifest) =>
      match DigestHex(manifest.config)
      case None => Unusable(ReadingManifest, true, lines)
      case Some(configHex) =>
        match ReadConfig(fs, codec, BlobName(o, configHex))
        case Malformed => Unusable(ReadingConfig, false, lines)
        case Nil => Unusable(ReadingConfig, true, lines)
        case Value(tag) => Usable(tag, manifest.layers, lines + [Log.Label(tag)])
  }

  // ---------- fetching, lines 68 to 125 ----------

  /** The directory that ExtractLayersOCI looks for before it does anything. */
  function GuardPath(o: Options, tag: string): Path {
    Resolve(CacheDir(o) + tag)
  }

  function FetchLayers(fs: Files, o: Options, codec: Codec, tag: string, layers: seq<string>): RunResult {
    var r := Extract(fs, codec.gunzip, BlobsDir(o), CacheDir(o), tag, layers);
    var lines := if Missing(fs, GuardPath(o, tag)) then [] else [Log.TarExists];
    match r.failure
    case None => RunResult(r.files, Done, true, lines, [])
    case Some(f) => RunResult(r.files, Stopped(Extracting(f), f.NoColon?), true, lines, [])
  }

  /** After a successful copy: follow the descriptors and extract the layers. */
  function FetchImage(fs: Files, o: Options, codec: Codec): RunResult {
    FetchDescribed(fs, o, codec, Describe(fs, o, codec))
  }

  function FetchDescribed(fs: Files, o: Options, codec: Codec, d: Described): RunResult {
    match d
    case Unusable(stage, panicked, lines) => RunResult(fs, Stopped(stage, panicked), true, lines, [])
    case Usable(tag, layers, lines) =>
      var r := FetchLayers(fs, o, codec, tag, layers);
      r.(fetching := lines + r.fetching)
  }

  /** The tree after MkdirAll and Mirror.Run. */
  function Copied(made: Files, o: Options, pull: Pull): Files {
    Graft(made, Resolve(CopyDir(o)), pull.content)
  }

  function Fetch(fs: Files, o: Options, pull: Pull, codec: Codec): RunResult {
    match MakeAll(fs, Resolve(CopyDir(o)))
    case None => RunResult(fs, Stopped(MakingCopyDir, false), false, [], [])
    case Some(made) =>
      var copied := Copied(made, o, pull);
      var lines := [Log.Copying(o.reference)];
      if !pull.ok then RunResult(copied, Stopped(Pulling, false), true, lines, [])
      else
        var r := FetchImage(copied, o, codec);
        r.(fetching := lines + r.fetching)
  }

  // ---------- listing, lines 128 to 142 ----------

  function NamedLines(name: string, trace: (bool, seq<Log.Line>)): seq<Log.Line> {
    [Log.Operator(name)] + trace.1 + (if trace.0 then [] else [Log.CatalogError])
  }

  function OperatorLines(fs: Files, dir: string, name: string): seq<Log.Line> {
    NamedLines(name, CatalogTrace(fs, dir, name))
  }

  function AllOperatorLines(fs: Files, dir: string, names: seq<string>): seq<Log.Line> {
    if names == [] then [] else OperatorLines(fs, dir, names[0]) + AllOperatorLines(fs, dir, names[1..])
  }

  /** The listing, or nothing if the directory cannot be read. */
  function Show(fs: Files, o: Options): Option<seq<Log.Line>> {
    match ReadDir(fs, Resolve(ConfigsDir(o)))
    case None => None
    case Some(names) =>
      Some([Log.Listing(o.reference), Log.ListingDir(ConfigsDir(o))] + AllOperatorLines(fs, ConfigsDir(o), names))
  }

  function List(r: RunResult, o: Options): RunResult {
    match Show(r.files, o)
    case None => r.(outcome := Stopped(ListingConfigs, false))
    case Some(lines) => r.(listing := lines)
  }

  // ---------- a run ----------

  function Collect(fs: Files, o: Options, pull: Pull, codec: Codec): RunResult {
    if !Contains(o.imageIndex, "operator") then RunResult(fs, Done, false, [], [])
    else if !Missing(fs, Resolve(CacheDir(o))) then List(RunResult(fs, Done, false, [], []), o)
    else
      var r := Fetch(fs, o, pull, codec);
      if r.outcome.Done? then List(r, o) else r
  }

  // ---------- the same as a program ----------

  class Collector {
    const disk: Disk
    const log: Log.Logger
    const manifest: Manifest
    const codec: Codec
    const o: Options

    ghost predicate Valid()
      reads disk
    {
      disk.Valid() && manifest.disk == disk && manifest.log == log && manifest.gunzip == codec.gunzip
    }

    constructor (disk: Disk, log: Log.Logger, codec: Codec, o: Options)
      requires disk.Valid()
      ensures Valid() && this.disk == disk && this.log == log && this.codec == codec && this.o == o
    {
      this.disk, this.log, this.codec, this.o := disk, log, codec, o;
      this.manifest := new Manifest(disk, log, codec.gunzip);
    }

    /** Lines 61 to 143; `pull` is what Mirror.Run does if it is called. */
    method Run(pull: Pull) returns (outcome: Outcome, pulled: bool)
      requires Valid() && WellFormed(pull.content)
      modifies disk, log
      ensures Valid()
      ensures var r := Collect(old(disk.files), o, pull, codec);
              && disk.files == r.files && outcome == r.outcome && pulled == r.pulled
              && log.lines == old(log.lines) + r.fetching + r.listing
    {
      if !Contains(o.imageIndex, "operator") {
        return Done, false;
      }
      if disk.IsMissing(CacheDir(o)) {
        outcome, pulled := RunCold(pull);
      } else {
        outcome, pulled := RunWarm();
      }
    }

    method RunWarm() returns (outcome: Outcome, pulled: bool)
      requires Valid()
      modifies log
      ensures Valid()
      ensures var r := List(RunResult(disk.files, Done, false, [], []), o);
              && outcome == r.outcome && !pulled && !r.pulled && r.files == disk.files
              && log.lines == old(log.lines) + r.fetching + r.listing
    {
      assert log.lines + [] == log.lines;
      outcome := ListAll();
      pulled := false;
      assert old(log.lines) + [] + [] == old(log.lines);
    }

    method RunCold(pull: Pull) returns (outcome: Outcome, pulled: bool)
      requires Valid() && WellFormed(pull.content)
      modifies disk, log
      ensures Valid()
      ensures var f := Fetch(old(disk.files), o, pull, codec);
              var r := if f.outcome.Done? then List(f, o) else f;
              && disk.files == r.files && outcome == r.outcome && pulled == r.pulled
              && log.lines == old(log.lines) + r.fetching + r.listing
    {
      outcome, pulled := FetchAll(pull);
      if outcome.Done? {
        outcome := ListAll();
      }
    }

    method FetchAll(pull: Pull) returns (outcome: Outcome, pulled: bool)
      requires Valid() && WellFormed(pull.content)
      modifies disk, log
      ensures Valid()
      ensures var r := Fetch(old(disk.files), o, pull, codec);
              && disk.files == r.files && outcome == r.outcome && pulled == r.pulled
              && log.lines == old(log.lines) + r.fetching && r.listing == []
    {
      var copyDir := CopyDir(o);
      ghost var before := disk.files;
      var ok := disk.MkdirAll(copyDir);
      MadeAll(before, Resolve(copyDir), disk.files);
      if !ok {
        return Stopped(MakingCopyDir, false), false;
      }
      log.Write(Log.Copying(o.reference));
      assert OnPath(Resolve(copyDir), Resolve(copyDir));
      ghost var made := disk.files;
      disk.Populate(copyDir, pull.content);
      GraftExact(made, Resolve(copyDir), pull.content);
      SameFiles(disk.files, Copied(made, o, pull));
      pulled := true;
      if !pull.ok {
        return Stopped(Pulling, false), true;
      }
      ghost var image := FetchImage(disk.files, o, codec);
      outcome := FetchCopied();
      Listing.Regroup(old(log.lines), [Log.Copying(o.reference)], image.fetching);
    }

    /** From reading the index to the end of the extraction. */
    method FetchCopied() returns (outcome: Outcome)
      requires Valid()
      modifies disk, log
      ensures Valid()
      ensures var r := FetchImage(old(disk.files), o, codec);
              && disk.files == r.files && outcome == r.outcome && r.pulled
              && log.lines == old(log.lines) + r.fetching && r.listing == []
    {
      var oci := ReadSchema(disk.files, codec, CopyDir(o) + "/" + "index.json");
      if !oci.Value? {
        return Stopped(ReadingIndex, oci.Nil?);
      }
      if |oci.value.manifests| == 0 {
        return Stopped(FindingManifest, false);
      }
      var digest := oci.value.manifests[0];
      if !Contains(digest, "sha256") {
        return Stopped(CheckingDigest, false);
      }
      var parts := Split(digest, ":");
      if |parts| < 2 {
        return Stopped(CheckingDigest, true);
      }
      outcome := FetchManifest(parts[1]);
    }

    /** From reading the manifest to the end of the extraction. */
    method FetchManifest(hex: string) returns (outcome: Outcome)
      requires Valid()
      modifies disk, log
      ensures Valid()
      ensures var r := FetchDescribed(old(disk.files), o, codec, DescribeManifest(old(disk.files), o, codec, hex));
              && disk.files == r.files && outcome == r.outcome && r.pulled
              && log.lines == old(log.lines) + r.fetching && r.listing == []
    {
      log.Write(Log.ManifestDigest(hex));
      var oci := ReadSchema(disk.files, codec, BlobName(o, hex));
      if !oci.Value? {
        return Stopped(ReadingManifest, oci.Nil?);
      }
      var parts := Split(oci.value.config, ":");
      if |parts| < 2 {
        return Stopped(ReadingManifest, true);
      }
      var ocs := ReadConfig(disk.files, codec, BlobName(o, parts[1]));
      if !ocs.Value? {
        return Stopped(ReadingConfig, ocs.Nil?);
      }
      log.Write(Log.Label(ocs.value));
      ghost var r := FetchLayers(disk.files, o, codec, ocs.value, oci.value.layers);
      outcome := ExtractImage(ocs.value, oci.value.layers);
      Listing.RegroupTwo(old(log.lines), Log.ManifestDigest(hex), Log.Label(ocs.value), r.fetching);
    }

    /** Lines 118 to 125 */
    method ExtractImage(tag: string, layers: seq<string>) returns (outcome: Outcome)
      requires Valid()
      modifies disk, log
      ensures Valid()
      ensures var r := FetchLayers(old(disk.files), o, codec, tag, layers);
              && disk.files == r.files && outcome == r.outcome && r.pulled
              && log.lines == old(log.lines) + r.fetching && r.listing == []
    {
      var failure := manifest.ExtractLayersOCI(BlobsDir(o), CacheDir(o), tag, layers);
      outcome := if failure.None? then Done else Stopped(Extracting(failure.value), failure.value.NoColon?);
    }

    /** The directory listing and the catalogs; an unreadable catalog is logged and passed over. */
    method ListAll() returns (outcome: Outcome)
      requires Valid()
      modifies log
      ensures Valid()
      ensures match Show(disk.files, o)
              case None => outcome == Stopped(ListingConfigs, false) && log.lines == old(log.lines)
              case Some(lines) => outcome == Done && log.lines == old(log.lines) + lines
    {
      var configsDir := ConfigsDir(o);
      var files := disk.List(configsDir);
      if files.None? {
        return Stopped(ListingConfigs, false);
      }
      ghost var before := log.lines;
      log.Write(Log.Listing(o.reference));
      log.Write(Log.ListingDir(configsDir));
      assert log.lines == before + [Log.Listing(o.reference), Log.ListingDir(configsDir)];
      LogOperators(configsDir, files.value);
      Listing.Regroup(before, [Log.Listing(o.reference), Log.ListingDir(configsDir)],
                      AllOperatorLines(disk.files, configsDir, files.value));
      outcome := Done;
    }

    method LogOperators(dir: string, names: seq<string>)
      requires Valid()
      modifies log
      ensures Valid()
      ensures log.lines == old(log.lines) + AllOperatorLines(disk.files, dir, names)
    {
      ghost var done: seq<Log.Line> := [];
      assert names[0..] == names;
      for i := 0 to |names|
        invariant log.lines == old(log.lines) + done
        invariant done + AllOperatorLines(disk.files, dir, names[i..]) == AllOperatorLines(disk.files, dir, names)
      {
        ghost var lines := OperatorLines(disk.files, dir, names[i]);
        OperatorLinesAt(disk.files, dir, names, i);
        Listing.Regroup(done, lines, AllOperatorLines(disk.files, dir, names[i + 1..]));
        LogOperator(dir, names[i]);
        Listing.Regroup(old(log.lines), done, lines);
        done := done + lines;
      }
    }

    method LogOperator(dir: string, name: string)
      requires Valid()
      modifies log
      ensures Valid()
      ensures log.lines == old(log.lines) + OperatorLines(disk.files, dir, name)
    {
      ghost var before, trace := log.lines, CatalogTrace(disk.files, dir, name);
      log.Write(Log.Operator(name));
      var ok := manifest.ListCatalogs(dir, name);
      Listing.Regroup(before, [Log.Operator(name)], trace.1);
      if !ok {
        log.Write(Log.CatalogError);
        Listing.Regroup(before, [Log.Operator(name)] + trace.1, [Log.CatalogError]);
      }
    }
  }

  lemma OperatorLinesAt(fs: Files, dir: string, names: seq<string>, i: nat)
    requires i < |names|
    ensures AllOperatorLines(fs, dir, names[i..]) ==
            OperatorLines(fs, dir, names[i]) + AllOperatorLines(fs, dir, names[i + 1..])
  {
    assert names[i..][1..] == names[i + 1..];
  }
}
