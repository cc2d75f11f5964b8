/**
  The chain of descriptors from the index to the label and the layers, told by
  the files it goes through (pkg/index/list-images.go:66-125): which chains
  lead to the extraction, what is logged on the way, and where the others stop.
*/
module DescriptorLaws {
  import opened Text
  import opened FileTree
  import opened Extraction
  import opened Collecting
  import opened CollectLaws
  import opened CacheLaws
  import opened ColdListing
  import Log

  // ---------- the files of a chain ----------

  /** A file that is there, decoded. */
  function Decoding<T>(fs: Files, p: Path, decode: string -> Decoded<T>): Decoded<T> {
    match NodeAt(fs, p)
    case Some(File(data)) => decode(data)
    case _ => Malformed
  }

  function IndexPath(o: Options): Path {
    DirOf(o) + ["operator-images"] + KeyPath(o) + ["index.json"]
  }

  function BlobPath(o: Options, hex: string): Path {
    DirOf(o) + ["operator-images"] + KeyPath(o) + ["blobs", "sha256"] + Resolve(hex)
  }

  /** The digest has a part after its first colon, up to the next one. */
  predicate Names(digest: string, hex: string) {
    var parts := Split(digest, ":");
    |parts| > 1 && parts[1] == hex
  }

  /** The index names a blob h1 that is the manifest m, whose config names a blob h2 that holds the label. */
  predicate Chain(fs: Files, o: Options, codec: Codec, h1: string, m: Schema, h2: string, tag: string) {
    var index := Decoding(fs, IndexPath(o), codec.schema);
    && index.Value? && index.value.manifests != []
    && Contains(index.value.manifests[0], "sha256") && Names(index.value.manifests[0], h1)
    && Decoding(fs, BlobPath(o, h1), codec.schema) == Value(m)
    && Names(m.config, h2)
    && Decoding(fs, BlobPath(o, h2), codec.config) == Value(tag)
  }

  lemma IndexFile(fs: Files, o: Options, codec: Codec)
    ensures ReadSchema(fs, codec, CopyDir(o) + "/" + "index.json") == Decoding(fs, IndexPath(o), codec.schema)
  {
    ColdListing.IndexPath(o);
  }

  lemma BlobFile(fs: Files, o: Options, codec: Codec, hex: string)
    ensures ReadSchema(fs, codec, BlobName(o, hex)) == Decoding(fs, BlobPath(o, hex), codec.schema)
    ensures ReadConfig(fs, codec, BlobName(o, hex)) == Decoding(fs, BlobPath(o, hex), codec.config)
  {
    BlobBelowCopy(o, hex);
    JoinOneMore(o.dir, "operator-images", Key(o.reference), "blobs/sha256");
    Directories(o);
    BlobResolves(CopyDir(o), "blobs", "sha256", hex);
    assert "blobs" + "/" + "sha256" == "blobs/sha256";
    assert Resolve(BlobName(o, hex)) == BlobPath(o, hex);
  }

  lemma BlobResolves(dir: string, a: string, b: string, hex: string)
    requires IsComponent(a) && IsComponent(b)
    ensures Resolve(dir + "/" + (a + "/" + b) + "/" + hex) == Resolve(dir) + [a, b] + Resolve(hex)
  {
    ResolveSlash(dir + "/" + (a + "/" + b), hex);
    ResolveSlash(dir, a + "/" + b);
    ResolveSlash(a, b);
    ResolveComponent(a);
    ResolveComponent(b);
  }

  // ---------- which chains lead to the extraction ----------

  /** What Describe finds at the end of a chain. */
  lemma ChainDescribed(fs: Files, o: Options, codec: Codec, h1: string, m: Schema, h2: string, tag: string)
    requires Chain(fs, o, codec, h1, m, h2, tag)
    ensures Describe(fs, o, codec) == Usable(tag, m.layers, [Log.ManifestDigest(h1), Log.Label(tag)])
  {
    IndexFile(fs, o, codec);
    BlobFile(fs, o, codec, h1);
    BlobFile(fs, o, codec, h2);
    assert Describe(fs, o, codec) == DescribeManifest(fs, o, codec, h1);
    assert [Log.ManifestDigest(h1)] + [Log.Label(tag)] == [Log.ManifestDigest(h1), Log.Label(tag)];
  }

  lemma DescribedChain(fs: Files, o: Options, codec: Codec) returns (h1: string, m: Schema, h2: string)
    requires Describe(fs, o, codec).Usable?
    ensures var d := Describe(fs, o, codec);
            Chain(fs, o, codec, h1, m, h2, d.tag) && d.layers == m.layers
  {
    IndexFile(fs, o, codec);
    var digest := Decoding(fs, IndexPath(o), codec.schema).value.manifests[0];
    h1 := Split(digest, ":")[1];
    assert Describe(fs, o, codec) == DescribeManifest(fs, o, codec, h1);
    BlobFile(fs, o, codec, h1);
    m := Decoding(fs, BlobPath(o, h1), codec.schema).value;
    h2 := Split(m.config, ":")[1];
    BlobFile(fs, o, codec, h2);
  }

  function LayersOf(fs: Files, o: Options, pull: Pull, codec: Codec): seq<string> {
    var d := Describe(Pulled(fs, o, pull), o, codec);
    if d.Usable? then d.layers else []
  }

  /**
    A run that has copied the image reaches the extraction with a label and
    layers if and only if the copied files are a chain that ends in that label,
    and the layers are those of its manifest.
  */
  lemma ReachesExactly(fs: Files, o: Options, pull: Pull, codec: Codec, tag: string, layers: seq<string>)
    requires MakeAll(fs, Copy(o)).Some? && pull.ok
    ensures (Reaches(fs, o, pull, codec) && LabelOf(fs, o, pull, codec) == tag && LayersOf(fs, o, pull, codec) == layers) <==>
            exists h1, m, h2 :: Chain(Pulled(fs, o, pull), o, codec, h1, m, h2, tag) && layers == m.layers
  {
    var copied := Pulled(fs, o, pull);
    if Reaches(fs, o, pull, codec) && LabelOf(fs, o, pull, codec) == tag && LayersOf(fs, o, pull, codec) == layers {
      var h1, m, h2 := DescribedChain(copied, o, codec);
      assert Chain(copied, o, codec, h1, m, h2, tag) && layers == m.layers;
    }
    if h1, m, h2 :| Chain(copied, o, codec, h1, m, h2, tag) && layers == m.layers {
      ChainDescribed(copied, o, codec, h1, m, h2, tag);
    }
  }

  /**
    The whole run along a chain: the lines logged, the tree that the layers
    leave when extracted into the cache with the label, and the outcome.
  */
  lemma ChainRun(fs: Files, o: Options, pull: Pull, codec: Codec, h1: string, m: Schema, h2: string, tag: string)
    requires WellFormed(fs) && WellFormed(pull.content) && ForOperators(o) && Cold(fs, o)
    requires MakeAll(fs, Copy(o)).Some? && pull.ok && Chain(Pulled(fs, o, pull), o, codec, h1, m, h2, tag)
    ensures var r := Collect(fs, o, pull, codec);
            var e := Extract(Pulled(fs, o, pull), codec.gunzip, BlobsDir(o), CacheDir(o), tag, m.layers);
            && r.pulled && r.files == e.files
            && r.fetching == [Log.Copying(o.reference), Log.ManifestDigest(h1), Log.Label(tag)]
                             + (if Missing(fs, GuardPath(o, tag)) then [] else [Log.TarExists])
            && r.outcome == (match e.failure
                             case Some(f) => Stopped(Extracting(f), f == NoColon)
                             case None => if IsDir(e.files, Cache(o) + ["configs"]) then Done else Stopped(ListingConfigs, false))
  {
    var copied := Pulled(fs, o, pull);
    var f := Fetch(fs, o, pull, codec);
    ChainDescribed(copied, o, codec, h1, m, h2, tag);
    GuardAfterCopy(fs, o, pull, tag);
    ChainFetch(fs, o, pull, codec, h1, tag, m.layers);
    ColdRun(fs, o, pull, codec);
    ListFacts(f, o);
  }

  lemma ChainFetch(fs: Files, o: Options, pull: Pull, codec: Codec, h1: string, tag: string, layers: seq<string>)
    requires ForOperators(o) && Cold(fs, o) && MakeAll(fs, Copy(o)).Some? && pull.ok
    requires Describe(Pulled(fs, o, pull), o, codec) == Usable(tag, layers, [Log.ManifestDigest(h1), Log.Label(tag)])
    ensures var f, copied := Fetch(fs, o, pull, codec), Pulled(fs, o, pull);
            var e := Extract(copied, codec.gunzip, BlobsDir(o), CacheDir(o), tag, layers);
            && f.pulled && f.files == e.files && f.listing == []
            && f.fetching == [Log.Copying(o.reference), Log.ManifestDigest(h1), Log.Label(tag)]
                             + (if Missing(copied, GuardPath(o, tag)) then [] else [Log.TarExists])
            && f.outcome == (match e.failure case Some(x) => Stopped(Extracting(x), x == NoColon) case None => Done)
  {
    var f, copied := Fetch(fs, o, pull, codec), Pulled(fs, o, pull);
    var layered := FetchLayers(copied, o, codec, tag, layers);
    FetchAfterCopy(fs, o, pull, codec);
    assert FetchImage(copied, o, codec) ==
           layered.(fetching := [Log.ManifestDigest(h1), Log.Label(tag)] + layered.fetching);
    ThreeLines(Log.Copying(o.reference), Log.ManifestDigest(h1), Log.Label(tag), layered.fetching);
  }

  lemma FetchAfterCopy(fs: Files, o: Options, pull: Pull, codec: Codec)
    requires ForOperators(o) && Cold(fs, o) && MakeAll(fs, Copy(o)).Some? && pull.ok
    ensures var image := FetchImage(Pulled(fs, o, pull), o, codec);
            Fetch(fs, o, pull, codec) == image.(fetching := [Log.Copying(o.reference)] + image.fetching)
  {
    Directories(o);
  }

  lemma ThreeLines(a: Log.Line, b: Log.Line, c: Log.Line, rest: seq<Log.Line>)
    ensures [a] + ([b, c] + rest) == [a, b, c] + rest
  {
  }

  // ---------- where the others stop ----------

  /** A run stops before the extraction, with the lines logged and the copied tree. */
  predicate StopsAt(r: RunResult, copied: Files, stage: Stage, panicked: bool, lines: seq<Log.Line>) {
    r.outcome == Stopped(stage, panicked) && r.fetching == lines && r.listing == [] && r.files == copied && r.pulled
  }

  lemma UnusableRun(fs: Files, o: Options, pull: Pull, codec: Codec)
    requires ForOperators(o) && Cold(fs, o) && MakeAll(fs, Copy(o)).Some? && pull.ok
    requires Describe(Pulled(fs, o, pull), o, codec).Unusable?
    ensures var d := Describe(Pulled(fs, o, pull), o, codec);
            StopsAt(Collect(fs, o, pull, codec), Pulled(fs, o, pull), d.stage, d.panicked, [Log.Copying(o.reference)] + d.lines)
  {
    Directories(o);
    ColdRun(fs, o, pull, codec);
  }

  /** Before the index: the copy directory cannot be made, or Mirror.Run fails. */
  lemma NothingCopied(fs: Files, o: Options, pull: Pull, codec: Codec)
    requires ForOperators(o) && Cold(fs, o)
    ensures MakeAll(fs, Copy(o)).None? ==>
              Collect(fs, o, pull, codec) == RunResult(fs, Stopped(MakingCopyDir, false), false, [], [])
    ensures MakeAll(fs, Copy(o)).Some? && !pull.ok ==>
              StopsAt(Collect(fs, o, pull, codec), Pulled(fs, o, pull), Pulling, false, [Log.Copying(o.reference)])
  {
    Directories(o);
    ColdRun(fs, o, pull, codec);
  }

  /** At the index: it cannot be read or decoded, is null, names no manifest, or a digest of another kind or without a colon. */
  lemma IndexStops(fs: Files, o: Options, pull: Pull, codec: Codec)
    requires ForOperators(o) && Cold(fs, o) && MakeAll(fs, Copy(o)).Some? && pull.ok
    ensures var r, copied, lines := Collect(fs, o, pull, codec), Pulled(fs, o, pull), [Log.Copying(o.reference)];
            match Decoding(copied, IndexPath(o), codec.schema)
            case Malformed => StopsAt(r, copied, ReadingIndex, false, lines)
            case Nil => StopsAt(r, copied, ReadingIndex, true, lines)
            case Value(index) =>
              && (index.manifests == [] ==> StopsAt(r, copied, FindingManifest, false, lines))
              && (index.manifests != [] && !Contains(index.manifests[0], "sha256") ==> StopsAt(r, copied, CheckingDigest, false, lines))
              && (index.manifests != [] && Contains(index.manifests[0], "sha256") && ':' !in index.manifests[0] ==>
                    StopsAt(r, copied, CheckingDigest, true, lines))
  {
    var copied := Pulled(fs, o, pull);
    IndexFile(copied, o, codec);
    var index := Decoding(copied, IndexPath(o), codec.schema);
    if index.Value? && index.value.manifests != [] && ':' !in index.value.manifests[0] {
      SplitWithout(index.value.manifests[0], ':');
    }
    if Describe(copied, o, codec).Unusable? {
      UnusableRun(fs, o, pull, codec);
      assert [Log.Copying(o.reference)] + [] == [Log.Copying(o.reference)];
    }
  }

  /** The index names the blob h1. */
  predicate IndexNames(fs: Files, o: Options, codec: Codec, h1: string) {
    var index := Decoding(fs, IndexPath(o), codec.schema);
    && index.Value? && index.value.manifests != []
    && Contains(index.value.manifests[0], "sha256") && Names(index.value.manifests[0], h1)
  }

  /** The copied index names the blob h1, which is a manifest whose config names the blob h2. */
  predicate ManifestNames(fs: Files, o: Options, codec: Codec, h1: string, h2: string) {
    var manifest := Decoding(fs, BlobPath(o, h1), codec.schema);
    IndexNames(fs, o, codec, h1) && manifest.Value? && Names(manifest.value.config, h2)
  }

  lemma IndexDescribed(fs: Files, o: Options, codec: Codec, h1: string)
    requires IndexNames(fs, o, codec, h1)
    ensures Describe(fs, o, codec) == DescribeManifest(fs, o, codec, h1)
  {
    IndexFile(fs, o, codec);
  }

  lemma StopsAfterDigest(fs: Files, o: Options, pull: Pull, codec: Codec, h1: string, stage: Stage, panicked: bool)
    requires ForOperators(o) && Cold(fs, o) && MakeAll(fs, Copy(o)).Some? && pull.ok
    requires Describe(Pulled(fs, o, pull), o, codec) == Unusable(stage, panicked, [Log.ManifestDigest(h1)])
    ensures StopsAt(Collect(fs, o, pull, codec), Pulled(fs, o, pull), stage, panicked, [Log.Copying(o.reference), Log.ManifestDigest(h1)])
  {
    UnusableRun(fs, o, pull, codec);
    assert [Log.Copying(o.reference)] + [Log.ManifestDigest(h1)] == [Log.Copying(o.reference), Log.ManifestDigest(h1)];
  }

  /** At the manifest: it cannot be read or decoded, is null, or its config's digest has no colon. */
  lemma ManifestStops(fs: Files, o: Options, pull: Pull, codec: Codec, h1: string)
    requires ForOperators(o) && Cold(fs, o) && MakeAll(fs, Copy(o)).Some? && pull.ok
    requires IndexNames(Pulled(fs, o, pull), o, codec, h1)
    ensures var r, copied := Collect(fs, o, pull, codec), Pulled(fs, o, pull);
            var lines := [Log.Copying(o.reference), Log.ManifestDigest(h1)];
            match Decoding(copied, BlobPath(o, h1), codec.schema)
            case Malformed => StopsAt(r, copied, ReadingManifest, false, lines)
            case Nil => StopsAt(r, copied, ReadingManifest, true, lines)
            case Value(m) => ':' !in m.config ==> StopsAt(r, copied, ReadingManifest, true, lines)
  {
    var copied := Pulled(fs, o, pull);
    var manifest := Decoding(copied, BlobPath(o, h1), codec.schema);
    IndexDescribed(copied, o, codec, h1);
    BlobFile(copied, o, codec, h1);
    if manifest.Malformed? {
      StopsAfterDigest(fs, o, pull, codec, h1, ReadingManifest, false);
    } else if manifest.Nil? {
      StopsAfterDigest(fs, o, pull, codec, h1, ReadingManifest, true);
    } else if ':' !in manifest.value.config {
      SplitWithout(manifest.value.config, ':');
      StopsAfterDigest(fs, o, pull, codec, h1, ReadingManifest, true);
    }
  }

  /** At the config: it cannot be read or decoded, or is null. */
  lemma ConfigStops(fs: Files, o: Options, pull: Pull, codec: Codec, h1: string, h2: string)
    requires ForOperators(o) && Cold(fs, o) && MakeAll(fs, Copy(o)).Some? && pull.ok
    requires ManifestNames(Pulled(fs, o, pull), o, codec, h1, h2)
    ensures var r, copied := Collect(fs, o, pull, codec), Pulled(fs, o, pull);
            var lines := [Log.Copying(o.reference), Log.ManifestDigest(h1)];
            match Decoding(copied, BlobPath(o, h2), codec.config)
            case Malformed => StopsAt(r, copied, ReadingConfig, false, lines)
            case Nil => StopsAt(r, copied, ReadingConfig, true, lines)
            case Value(_) => true
  {
    var copied := Pulled(fs, o, pull);
    var config := Decoding(copied, BlobPath(o, h2), codec.config);
    IndexDescribed(copied, o, codec, h1);
    BlobFile(copied, o, codec, h1);
    BlobFile(copied, o, codec, h2);
    if !config.Value? {
      StopsAfterDigest(fs, o, pull, codec, h1, ReadingConfig, config.Nil?);
    }
  }

  // ---------- runs that list nothing ----------

  /** A run that is not for operators does nothing in this branch. */
  lemma OtherRuns(fs: Files, o: Options, pull: Pull, codec: Codec)
    requires !Contains(o.imageIndex, "operator")
    ensures Collect(fs, o, pull, codec) == RunResult(fs, Done, false, [], [])
  {
  }

  /** A run that does not succeed lists nothing at all. */
  lemma NothingListed(fs: Files, o: Options, pull: Pull, codec: Codec)
    requires Collect(fs, o, pull, codec).outcome != Done
    ensures Collect(fs, o, pull, codec).listing == []
  {
    if ForOperators(o) {
      if Cold(fs, o) {
        ColdRun(fs, o, pull, codec);
        FetchListsNothing(fs, o, pull, codec);
      } else {
        Directories(o);
      }
    }
  }

  lemma FetchListsNothing(fs: Files, o: Options, pull: Pull, codec: Codec)
    ensures Fetch(fs, o, pull, codec).listing == []
  {
    match MakeAll(fs, Resolve(CopyDir(o)))
    case None =>
    case Some(made) =>
      var d := Describe(Copied(made, o, pull), o, codec);
      assert FetchDescribed(Copied(made, o, pull), o, codec, d).listing == [];
  }
}
