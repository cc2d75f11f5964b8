/**
  What a cold run extracts and lists: the guard and the image's label, the
  condition under which it lists at all, and the listing as a function of what
  the image's layers ask for.
*/
module ColdListing {
  import opened Wrappers
  import opened Text
  import opened FileTree
  import opened Extraction
  import opened ExtractionLaws
  import opened LayerLaws
  import opened Filtering
  import opened Manifests
  import opened Collecting
  import opened CollectLaws
  import opened CacheLaws
  import Listing
  import Log

  // ---------- what the guard finds ----------

  /** The last part of a key. */
  function LastPart(o: Options): string {
    var parts := Split(Key(o.reference), "/");
    parts[|parts| - 1]
  }

  /** A text cut at its last slash, if it has one. */
  lemma LastSlash(s: string) returns (a: string, b: string)
    ensures '/' !in b && Split(s, "/")[|Split(s, "/")| - 1] == b
    ensures s == b || s == a + "/" + b
    decreases |s|
  {
    if '/' in s {
      var i :| 0 <= i < |s| && s[i] == '/';
      var left, right := s[..i], s[i + 1..];
      assert s == left + "/" + right;
      SplitAt(left, right, '/');
      var a', b' := LastSlash(right);
      b := b';
      if right == b {
        a := left;
      } else {
        a := left + "/" + a';
        assert left + "/" + (a' + "/" + b) == (left + "/" + a') + "/" + b;
      }
    } else {
      SplitWithout(s, '/');
      a, b := "", s;
    }
  }

  lemma CacheParent(o: Options) returns (parent: string)
    ensures CacheDir(o) == parent + "/" + LastPart(o) && '/' !in LastPart(o)
    ensures OnPath(DirOf(o) + ["hold-operators"], Resolve(parent))
  {
    var top := o.dir + "/" + "hold-operators";
    var a, b := LastSlash(Key(o.reference));
    HoldDir(o.dir, "hold-operators", Key(o.reference));
    ResolveSlash(top, a);
    parent := if Key(o.reference) == b then top else top + "/" + a;
    assert Key(o.reference) != b ==> top + "/" + (a + "/" + b) == (top + "/" + a) + "/" + b;
  }

  lemma HoldDir(dir: string, hold: string, key: string)
    requires IsComponent(hold)
    ensures Join([dir, hold, key], "/") == dir + "/" + hold + "/" + key
    ensures Resolve(dir + "/" + hold) == Resolve(dir) + [hold]
  {
    JoinThree(dir, hold, key);
    assert dir + "/" + (hold + "/" + key) == (dir + "/" + hold) + "/" + key;
    ResolveSlash(dir, hold);
    ResolveComponent(hold);
  }

  /**
    The guard looks at or below the cache exactly if the label is empty or
    begins with a slash, or the key does not end in a name.  It never looks
    outside the directory of all caches.
  */
  lemma GuardOfCache(o: Options, tag: string)
    ensures OnPath(Cache(o), GuardPath(o, tag)) <==> tag == "" || tag[0] == '/' || !IsComponent(LastPart(o))
    ensures OnPath(Held(o, []), GuardPath(o, tag))
  {
    Directories(o);
    var parent := CacheParent(o);
    GuardedPath(parent, LastPart(o), tag);
    assert Held(o, []) == DirOf(o) + ["hold-operators"];
    OnPathTransitive(Held(o, []), Resolve(parent), GuardPath(o, tag));
  }

  /** The run reaches the extraction. */
  predicate Reaches(fs: Files, o: Options, pull: Pull, codec: Codec) {
    MakeAll(fs, Copy(o)).Some? && pull.ok && Describe(Pulled(fs, o, pull), o, codec).Usable?
  }

  function LabelOf(fs: Files, o: Options, pull: Pull, codec: Codec): string {
    var d := Describe(Pulled(fs, o, pull), o, codec);
    if d.Usable? then d.tag else ""
  }

  /** What the image's layers ask for. */
  function RunPlan(fs: Files, o: Options, pull: Pull, codec: Codec): seq<Action> {
    var d := Describe(Pulled(fs, o, pull), o, codec);
    if d.Usable? then ImagePlan(Pulled(fs, o, pull), o, codec, d.tag, d.layers) else []
  }

  lemma GuardAfterCopy(fs: Files, o: Options, pull: Pull, tag: string)
    requires WellFormed(fs) && WellFormed(pull.content)
    ensures Missing(Pulled(fs, o, pull), GuardPath(o, tag)) <==> Missing(fs, GuardPath(o, tag))
  {
    GuardOfCache(o, tag);
    var guard := GuardPath(o, tag);
    var x := guard[|Held(o, [])|..];
    assert guard == Held(o, x);
    if MakeAll(fs, Copy(o)).Some? {
      CopyKeepsMissing(fs, o, pull, x);
    }
  }

  lemma DescribedLines(fs: Files, o: Options, codec: Codec)
    ensures Describe(fs, o, codec).Usable? ==> Log.TarExists !in Describe(fs, o, codec).lines
  {
  }

  lemma FetchReached(fs: Files, o: Options, pull: Pull, codec: Codec)
    requires ForOperators(o) && Cold(fs, o) && Reaches(fs, o, pull, codec)
    ensures var copied := Pulled(fs, o, pull);
            var d, f := Describe(copied, o, codec), Fetch(fs, o, pull, codec);
            && (Log.TarExists in f.fetching <==> !Missing(copied, GuardPath(o, d.tag)))
            && f.pulled && f.files == Extract(copied, codec.gunzip, BlobsDir(o), CacheDir(o), d.tag, d.layers).files
            && (f.outcome == Done <==> Extract(copied, codec.gunzip, BlobsDir(o), CacheDir(o), d.tag, d.layers).Ok())
  {
    Directories(o);
    DescribedLines(Pulled(fs, o, pull), o, codec);
  }

  /**
    A run that finds no cache and reaches the extraction skips it exactly if
    the path that the guard looks for is there, which is never the case for a
    label with a leading slash; then nothing is extracted, the cache stays
    missing and the listing fails.
  */
  lemma SkippedExactly(fs: Files, o: Options, pull: Pull, codec: Codec)
    requires WellFormed(fs) && WellFormed(pull.content) && ForOperators(o) && Cold(fs, o)
    requires Reaches(fs, o, pull, codec)
    ensures var r, tag := Collect(fs, o, pull, codec), LabelOf(fs, o, pull, codec);
            && (Log.TarExists in r.fetching <==> !Missing(fs, GuardPath(o, tag)))
            && (tag == "" || tag[0] == '/' || !IsComponent(LastPart(o)) ==> Log.TarExists !in r.fetching)
            && (Log.TarExists in r.fetching ==> r.outcome == Stopped(ListingConfigs, false) && Cold(r.files, o))
  {
    var r, f, tag := Collect(fs, o, pull, codec), Fetch(fs, o, pull, codec), LabelOf(fs, o, pull, codec);
    FetchReached(fs, o, pull, codec);
    ColdRun(fs, o, pull, codec);
    ListFacts(f, o);
    GuardAfterCopy(fs, o, pull, tag);
    GuardOfCache(o, tag);
    if OnPath(Cache(o), GuardPath(o, tag)) {
      MissingBelow(fs, Cache(o), GuardPath(o, tag));
    }
    CopyKeepsCold(fs, o, pull);
    if !Missing(fs, GuardPath(o, tag)) {
      var configs := Cache(o) + ["configs"];
      assert OnPath(Cache(o), configs);
      NothingBelowMissing(Pulled(fs, o, pull), Cache(o), configs);
    }
  }

  // ---------- the label that the listing does not use ----------

  /**
    A run that finds no cache lists if and only if it reaches the extraction,
    does not skip it, can perform its plan, and the plan makes the hard-coded
    configs directory: the image's label decides what is extracted, but the
    listing reads /configs.
  */
  lemma ColdListsExactly(fs: Files, o: Options, pull: Pull, codec: Codec)
    requires WellFormed(fs) && WellFormed(pull.content) && ForOperators(o) && Cold(fs, o)
    ensures var plan := RunPlan(fs, o, pull, codec);
            Collect(fs, o, pull, codec).outcome == Done <==>
            && Reaches(fs, o, pull, codec)
            && Missing(fs, GuardPath(o, LabelOf(fs, o, pull, codec)))
            && Feasible(Pulled(fs, o, pull), plan)
            && MakesDir(plan, Cache(o) + ["configs"])
  {
    StopsEarly(fs, o, pull, codec);
    if Reaches(fs, o, pull, codec) {
      ReachedListsExactly(fs, o, pull, codec);
    }
  }

  lemma ReachedListsExactly(fs: Files, o: Options, pull: Pull, codec: Codec)
    requires WellFormed(fs) && WellFormed(pull.content) && ForOperators(o) && Cold(fs, o)
    requires Reaches(fs, o, pull, codec)
    ensures var plan := RunPlan(fs, o, pull, codec);
            Collect(fs, o, pull, codec).outcome == Done <==>
            && Missing(fs, GuardPath(o, LabelOf(fs, o, pull, codec)))
            && Feasible(Pulled(fs, o, pull), plan)
            && MakesDir(plan, Cache(o) + ["configs"])
  {
    var copied, configs := Pulled(fs, o, pull), Cache(o) + ["configs"];
    var d := Describe(copied, o, codec);
    var r := Extract(copied, codec.gunzip, BlobsDir(o), CacheDir(o), d.tag, d.layers);
    FetchReached(fs, o, pull, codec);
    ColdRun(fs, o, pull, codec);
    ListFacts(Fetch(fs, o, pull, codec), o);
    GuardAfterCopy(fs, o, pull, d.tag);
    BlobsApart(o);
    assert WellFormed(copied) && NodeAt(copied, configs).None? by {
      CopyKeepsCold(fs, o, pull);
      assert OnPath(Cache(o), configs);
      NothingBelowMissing(copied, Cache(o), configs);
    }
    if Missing(copied, GuardPath(o, d.tag)) {
      ExtractOutcome(copied, codec.gunzip, BlobsDir(o), CacheDir(o), d.tag, d.layers, configs);
    }
    if r.Ok() {
      ExtractedDir(copied, codec.gunzip, BlobsDir(o), CacheDir(o), d.tag, d.layers, configs);
    }
  }

  /** After a successful extraction a path that was not there is a directory exactly if the plan made it one. */
  lemma ExtractedDir(fs: Files, dec: Decoder, from: string, base: string, tag: string, digests: seq<string>, p: Path)
    requires WellFormed(fs) && Apart(from, base)
    requires Extract(fs, dec, from, base, tag, digests).Ok() && NodeAt(fs, p).None?
    ensures IsDir(Extract(fs, dec, from, base, tag, digests).files, p) <==>
            Missing(fs, Resolve(base + tag)) && MakesDir(Plan(fs, dec, from, base, TrimSlashes(tag), digests), p)
  {
    if Missing(fs, Resolve(base + tag)) {
      var plan := Plan(fs, dec, from, base, TrimSlashes(tag), digests);
      ExtractOutcome(fs, dec, from, base, tag, digests, p);
      if LastWrite(plan, p).Some? {
        FeasibleWrite(fs, plan, p);
      }
    }
  }

  // ---------- a sound image that is not listed ----------

  /** The copy of an image whose index, manifest, config and layer are one blob. */
  function OneBlob(hex: string): Files {
    map[["index.json"] := File(""), ["blobs"] := Dir, ["blobs", "sha256"] := Dir, ["blobs", "sha256", hex] := File("")]
  }

  lemma OneBlobWellFormed(hex: string)
    ensures WellFormed(OneBlob(hex))
  {
    var fs := OneBlob(hex);
    assert Parent(["index.json"]) == [] && Parent(["blobs"]) == [];
    assert Parent(["blobs", "sha256"]) == ["blobs"] && Parent(["blobs", "sha256", hex]) == ["blobs", "sha256"];
  }

  /** The image's label is the directory x of the root, and its one layer holds that directory and may then break off. */
  function OneLayer(digest: string, x: string, endsWell: bool): Codec {
    Codec(_ => Archive([Entry(x, Directory)], endsWell),
          _ => Value(Schema([digest], digest, [digest])),
          _ => Value("/" + x))
  }

  lemma BlobPath(o: Options, hex: string)
    requires IsComponent(hex) && ':' !in hex
    ensures Resolve(BlobName(o, hex)) == Copy(o) + ["blobs", "sha256", hex]
    ensures BlobsDir(o) + "/" + hex == BlobName(o, hex)
  {
    BlobAddress(o, hex);
    Directories(o);
    ThreeBelow(CopyDir(o), "blobs", "sha256", hex);
    assert "blobs" + "/" + "sha256" == "blobs/sha256";
  }

  lemma ThreeBelow(dir: string, a: string, b: string, c: string)
    requires IsComponent(a) && IsComponent(b) && IsComponent(c)
    ensures Resolve(dir + "/" + (a + "/" + b) + "/" + c) == Resolve(dir) + [a, b, c]
  {
    ResolveSlash(dir + "/" + (a + "/" + b), c);
    ResolveSlash(dir, a + "/" + b);
    ResolveSlash(a, b);
    ResolveComponent(a);
    ResolveComponent(b);
    ResolveComponent(c);
  }

  lemma OneBelow(dir: string, a: string)
    requires IsComponent(a)
    ensures Resolve(dir + "/" + a) == Resolve(dir) + [a]
  {
    ResolveSlash(dir, a);
    ResolveComponent(a);
  }

  lemma OneBlobRead(fs: Files, o: Options, pull: Pull, hex: string)
    requires WellFormed(fs) && MakeAll(fs, Copy(o)).Some? && ForOperators(o) && Cold(fs, o)
    requires pull.content == OneBlob(hex)
    ensures ReadFile(Pulled(fs, o, pull), Copy(o) + ["index.json"]) == Some("")
    ensures ReadFile(Pulled(fs, o, pull), Copy(o) + ["blobs", "sha256", hex]) == Some("")
  {
    OneBlobWellFormed(hex);
    Directories(o);
    MakeAllExact(fs, Copy(o));
    var made := MakeAll(fs, Copy(o)).value;
    assert OnPath(Copy(o), Copy(o));
    var index, blob := Copy(o) + ["index.json"], Copy(o) + ["blobs", "sha256", hex];
    assert Below(Copy(o), index) == ["index.json"] && Below(Copy(o), blob) == ["blobs", "sha256", hex];
    GraftAt(made, Copy(o), pull.content, index);
    GraftAt(made, Copy(o), pull.content, blob);
  }

  lemma OneLayerDescribed(fs: Files, o: Options, hex: string, digest: string, x: string, endsWell: bool)
    requires Contains(digest, "sha256") && DigestHex(digest) == Some(hex)
    requires ReadFile(fs, Resolve(CopyDir(o) + "/" + "index.json")) == Some("")
    requires ReadFile(fs, Resolve(BlobName(o, hex))) == Some("")
    ensures var d := Describe(fs, o, OneLayer(digest, x, endsWell));
            d.Usable? && d.tag == "/" + x && d.layers == [digest]
  {
    var codec, schema := OneLayer(digest, x, endsWell), Schema([digest], digest, [digest]);
    assert ReadSchema(fs, codec, CopyDir(o) + "/" + "index.json") == Value(schema);
    assert Describe(fs, o, codec) == DescribeManifest(fs, o, codec, hex);
    assert ReadSchema(fs, codec, BlobName(o, hex)) == Value(schema);
    assert ReadConfig(fs, codec, BlobName(o, hex)) == Value("/" + x);
  }

  lemma TrimRooted(x: string)
    requires IsComponent(x)
    ensures TrimSlashes("/" + x) == x
  {
    assert x[|x| - 1] != '/';
    assert ("/" + x)[1..] == x;
  }

  function OneLayerActions(o: Options, x: string, endsWell: bool): seq<Action> {
    [Mkdir(Cache(o) + [x])] + (if endsWell then [] else [Halt(NextFailed)])
  }

  lemma OneLayerPlan(fs: Files, o: Options, hex: string, digest: string, x: string, endsWell: bool)
    requires Contains(digest, "sha256") && DigestHex(digest) == Some(hex) && IsComponent(x)
    requires ReadFile(fs, Resolve(BlobsDir(o) + "/" + hex)) == Some("")
    ensures ImagePlan(fs, o, OneLayer(digest, x, endsWell), "/" + x, [digest]) == OneLayerActions(o, x, endsWell)
  {
    var dec, blob := OneLayer(digest, x, endsWell).gunzip, Archive([Entry(x, Directory)], endsWell);
    var base := CacheDir(o);
    OneEntry(base, x);
    Directories(o);
    TrimRooted(x);
    assert ReadLayer(fs, dec, BlobsDir(o), digest) == Readable(blob);
    assert LayerActions(fs, dec, BlobsDir(o), base, x, digest) == BlobActions(base, x, blob);
    assert Plan(fs, dec, BlobsDir(o), base, x, []) == [];
    assert [digest][1..] == [];
    assert Plan(fs, dec, BlobsDir(o), base, x, [digest]) == BlobActions(base, x, blob) + [];
  }

  lemma OneEntry(base: string, x: string)
    requires IsComponent(x)
    ensures EntriesActions(base, x, [Entry(x, Directory)]) == [Mkdir(Resolve(base) + [x])]
  {
    var es := [Entry(x, Directory)];
    ContainsSelf(x);
    OneBelow(base, x);
    assert es[1..] == [];
    assert x != "./" by { assert "./"[1] == '/'; }
    assert EntryActions(base, x, es[0]) == [Mkdir(Resolve(base) + [x])];
    assert EntriesActions(base, x, es) == [Mkdir(Resolve(base) + [x])] + [];
  }

  /**
    For any run that finds no cache and any label "/x" other than the hard-coded
    one, there is an image whose descriptors and layer are sound, whose layer
    holds the directory x, and which the program extracts in full and then
    fails to list.
  */
  lemma OtherLabelFails(fs: Files, o: Options, x: string) returns (pull: Pull, codec: Codec)
    requires WellFormed(fs) && ForOperators(o) && Cold(fs, o) && MakeAll(fs, Copy(o)).Some?
    requires IsComponent(x) && x != "configs"
    ensures WellFormed(pull.content) && Reaches(fs, o, pull, codec) && LabelOf(fs, o, pull, codec) == "/" + x
    ensures var r := Collect(fs, o, pull, codec);
            r.pulled && r.outcome == Stopped(ListingConfigs, false) && IsDir(r.files, Cache(o) + [x])
  {
    pull, codec := OneLayerImage(fs, o, x, true);
    OneLayerRun(fs, o, pull, codec, x, true);
  }

  /** An image for the label "/x" that a run copies and whose layer it starts to extract. */
  lemma OneLayerImage(fs: Files, o: Options, x: string, endsWell: bool) returns (pull: Pull, codec: Codec)
    requires WellFormed(fs) && ForOperators(o) && Cold(fs, o) && MakeAll(fs, Copy(o)).Some? && IsComponent(x)
    ensures WellFormed(pull.content) && Reaches(fs, o, pull, codec) && LabelOf(fs, o, pull, codec) == "/" + x
    ensures RunPlan(fs, o, pull, codec) == OneLayerActions(o, x, endsWell)
  {
    var hex := "x";
    var digest := "sha256" + ":" + hex;
    pull, codec := Pull(true, OneBlob(hex)), OneLayer(digest, x, endsWell);
    OneBlobWellFormed(hex);
    BlobAddress(o, hex);
    OneLayerReached(fs, o, pull, hex, digest, x, endsWell);
  }

  lemma OneLayerReached(fs: Files, o: Options, pull: Pull, hex: string, digest: string, x: string, endsWell: bool)
    requires WellFormed(fs) && ForOperators(o) && Cold(fs, o) && MakeAll(fs, Copy(o)).Some?
    requires pull == Pull(true, OneBlob(hex)) && IsComponent(hex) && ':' !in hex && IsComponent(x)
    requires Contains(digest, "sha256") && DigestHex(digest) == Some(hex)
    ensures var codec := OneLayer(digest, x, endsWell);
            && Reaches(fs, o, pull, codec) && LabelOf(fs, o, pull, codec) == "/" + x
            && RunPlan(fs, o, pull, codec) == OneLayerActions(o, x, endsWell)
  {
    OneBlobFound(fs, o, pull, hex);
    OneLayerDescribed(Pulled(fs, o, pull), o, hex, digest, x, endsWell);
    OneLayerPlan(Pulled(fs, o, pull), o, hex, digest, x, endsWell);
  }

  lemma OneBlobFound(fs: Files, o: Options, pull: Pull, hex: string)
    requires WellFormed(fs) && MakeAll(fs, Copy(o)).Some? && ForOperators(o) && Cold(fs, o)
    requires pull.content == OneBlob(hex) && IsComponent(hex) && ':' !in hex
    ensures ReadFile(Pulled(fs, o, pull), Resolve(CopyDir(o) + "/" + "index.json")) == Some("")
    ensures ReadFile(Pulled(fs, o, pull), Resolve(BlobName(o, hex))) == Some("")
    ensures ReadFile(Pulled(fs, o, pull), Resolve(BlobsDir(o) + "/" + hex)) == Some("")
  {
    var copied, index, blob := Pulled(fs, o, pull), Copy(o) + ["index.json"], Copy(o) + ["blobs", "sha256", hex];
    assert Resolve(CopyDir(o) + "/" + "index.json") == index by { IndexPath(o); }
    assert Resolve(BlobName(o, hex)) == blob && BlobsDir(o) + "/" + hex == BlobName(o, hex) by { BlobPath(o, hex); }
    assert ReadFile(copied, index) == Some("") && ReadFile(copied, blob) == Some("") by { OneBlobRead(fs, o, pull, hex); }
  }

  lemma IndexPath(o: Options)
    ensures Resolve(CopyDir(o) + "/" + "index.json") == Copy(o) + ["index.json"]
  {
    Directories(o);
    OneBelow(CopyDir(o), "index.json");
  }

  /** The run makes the cache with the directory x in it and fails to list, or to read on. */
  lemma OneLayerRun(fs: Files, o: Options, pull: Pull, codec: Codec, x: string, endsWell: bool)
    requires WellFormed(fs) && WellFormed(pull.content) && ForOperators(o) && Cold(fs, o)
    requires Reaches(fs, o, pull, codec) && LabelOf(fs, o, pull, codec) == "/" + x
    requires RunPlan(fs, o, pull, codec) == OneLayerActions(o, x, endsWell)
    ensures var r, configs := Collect(fs, o, pull, codec), Cache(o) + ["configs"];
            && r.pulled && IsDir(r.files, Cache(o) + [x]) && (IsDir(r.files, configs) <==> x == "configs")
            && r.outcome == if !endsWell then Stopped(Extracting(NextFailed), false)
                            else if x == "configs" then Done else Stopped(ListingConfigs, false)
  {
    var copied, f := Pulled(fs, o, pull), Fetch(fs, o, pull, codec);
    var d := Describe(copied, o, codec);
    CopyKeepsCold(fs, o, pull);
    GuardOfCache(o, d.tag);
    MissingBelow(copied, Cache(o), GuardPath(o, d.tag));
    OneLayerTree(copied, o, x, endsWell);
    BlobsApart(o);
    LayersArePlan(copied, codec.gunzip, BlobsDir(o), CacheDir(o), TrimSlashes(d.tag), d.layers);
    FetchReached(fs, o, pull, codec);
    FetchFailed(fs, o, pull, codec);
    ColdRun(fs, o, pull, codec);
    ListFacts(f, o);
  }

  lemma FetchFailed(fs: Files, o: Options, pull: Pull, codec: Codec)
    requires ForOperators(o) && Cold(fs, o) && Reaches(fs, o, pull, codec)
    ensures var copied := Pulled(fs, o, pull);
            var d := Describe(copied, o, codec);
            var e := Extract(copied, codec.gunzip, BlobsDir(o), CacheDir(o), d.tag, d.layers);
            !e.Ok() ==> Fetch(fs, o, pull, codec).outcome == Stopped(Extracting(e.failure.value), e.failure.value.NoColon?)
  {
    Directories(o);
  }

  /** The tree that the actions leave, with or without the failure at the end. */
  lemma OneLayerTree(fs: Files, o: Options, x: string, endsWell: bool)
    requires WellFormed(fs) && Cold(fs, o)
    ensures var r, made := Run(fs, OneLayerActions(o, x, endsWell)), Cache(o) + [x];
            && r.failure == (if endsWell then None else Some(NextFailed))
            && IsDir(r.files, made) && (IsDir(r.files, Cache(o) + ["configs"]) <==> x == "configs")
  {
    var made, configs := Cache(o) + [x], Cache(o) + ["configs"];
    assert OnPath(Cache(o), made) && OnPath(made, made) && OnPath(Cache(o), configs);
    MissingBelow(fs, Cache(o), made);
    MissingExact(fs, made);
    MakeAllExact(fs, made);
    RunOne(fs, Mkdir(made));
    var tree := MakeAll(fs, made).value;
    RunConcat(fs, [Mkdir(made)], if endsWell then [] else [Halt(NextFailed)]);
    RunOne(tree, Halt(NextFailed));
    NothingBelowMissing(fs, Cache(o), configs);
    assert OnPath(configs, made) <==> x == "configs" by {
      assert configs[|Cache(o)|] == "configs" && made[|Cache(o)|] == x;
    }
  }

  // ---------- a run that fails later ----------

  /**
    For any run that finds no cache there is an image whose layer breaks off
    after its first entry, a directory.  The extraction fails, and yet the
    cache is there: no later run with this key pulls, and if the directory is
    the hard-coded one they all succeed.
  */
  lemma PartialCacheStays(fs: Files, o: Options, x: string) returns (pull: Pull, codec: Codec)
    requires WellFormed(fs) && ForOperators(o) && Cold(fs, o) && MakeAll(fs, Copy(o)).Some? && IsComponent(x)
    ensures WellFormed(pull.content)
    ensures var r := Collect(fs, o, pull, codec);
            && r.outcome == Stopped(Extracting(NextFailed), false) && !Cold(r.files, o)
            && forall later, pull', codec' :: SharesCache(o, later) ==>
                 var next := Collect(r.files, later, pull', codec');
                 !next.pulled && next.files == r.files && (next.outcome == Done <==> x == "configs")
  {
    pull, codec := OneLayerImage(fs, o, x, false);
    OneLayerRun(fs, o, pull, codec, x, false);
    var r, made := Collect(fs, o, pull, codec), Cache(o) + [x];
    CollectFrame(fs, o, pull, codec, []);
    assert OnPath(Cache(o), made);
    AncestorIsDir(r.files, made, Cache(o));
    MissingExact(r.files, Cache(o));
    forall later, pull', codec' | SharesCache(o, later)
      ensures var next := Collect(r.files, later, pull', codec');
              !next.pulled && next.files == r.files && (next.outcome == Done <==> x == "configs")
    {
      WarmRun(r.files, later, pull', codec');
      ConfigsBelowCache(later);
    }
  }

  // ---------- which runs reach into a cache ----------

  /** No run for `other` changes anything in the cache of `o` once that exists. */
  ghost predicate LeavesAlone(o: Options, other: Options) {
    forall fs, pull: Pull, codec, q ::
      WellFormed(fs) && !Cold(fs, o) && WellFormed(pull.content) && OnPath(Cache(o), q) ==>
        NodeAt(Collect(fs, other, pull, codec).files, q) == NodeAt(fs, q)
  }

  /**
    The runs for another reference leave an existing cache alone, in every
    tree and for every image, exactly if its key is not nested in this one's or
    it is no operator run.
  */
  lemma LeftAloneExactly(o: Options, other: Options)
    requires DirOf(other) == DirOf(o)
    ensures LeavesAlone(o, other) <==> !Nested(o, other) || !ForOperators(other)
  {
    if !Nested(o, other) || !ForOperators(other) {
      forall fs, pull: Pull, codec, q | WellFormed(fs) && !Cold(fs, o) && WellFormed(pull.content) && OnPath(Cache(o), q)
        ensures NodeAt(Collect(fs, other, pull, codec).files, q) == NodeAt(fs, q)
      {
        if ForOperators(other) {
          OneRunSpares(fs, o, Request(other, pull), codec, q);
        }
      }
    } else {
      var fs, pull, codec, q := Intruder(o, other);
      assert NodeAt(Collect(fs, other, pull, codec).files, q) != NodeAt(fs, q);
    }
  }

  /** For any nested key, a tree with this cache and an image that the run for the nested key extracts into it. */
  lemma Intruder(o: Options, other: Options) returns (fs: Files, pull: Pull, codec: Codec, q: Path)
    requires DirOf(other) == DirOf(o) && Nested(o, other) && ForOperators(other)
    ensures WellFormed(fs) && IsDir(fs, Cache(o)) && !Cold(fs, o) && WellFormed(pull.content) && OnPath(Cache(o), q)
    ensures NodeAt(fs, q).None? && IsDir(Collect(fs, other, pull, codec).files, q)
  {
    fs := OneDirectory(Cache(o));
    CachesNest(o, other);
    CachesNest(other, o);
    assert Cache(o) != Cache(other) && !OnPath(Cache(other), Cache(o)) by {
      assert |Cache(other)| > |Cache(o)|;
    }
    MissingInOneDirectory(fs, Cache(other), Cache(o));
    MissingInOneDirectory(fs, Cache(o), Cache(o));
    assert OnPath(Cache(o), Cache(o));
    MakeAllExact(fs, Copy(other));
    pull, codec := OneLayerImage(fs, other, "x", true);
    OneLayerRun(fs, other, pull, codec, "x", true);
    q := Cache(other) + ["x"];
    OnPathTransitive(Cache(o), Cache(other), q);
    assert OnPath(q, Cache(o)) ==> |q| <= |Cache(o)|;
  }

  // ---------- the operators listed ----------

  /** The operator names of a listing, in order. */
  function OperatorNames(lines: seq<Log.Line>): seq<string> {
    if lines == [] then []
    else (if lines[0].Operator? then [lines[0].name] else []) + OperatorNames(lines[1..])
  }

  lemma {:induction false} NamesConcat(a: seq<Log.Line>, b: seq<Log.Line>)
    ensures OperatorNames(a + b) == OperatorNames(a) + OperatorNames(b)
    decreases |a|
  {
    if a == [] {
      assert a + b == b;
    } else {
      assert (a + b)[1..] == a[1..] + b;
      NamesConcat(a[1..], b);
    }
  }

  lemma {:induction false} NoNames(lines: seq<Log.Line>)
    requires forall i :: 0 <= i < |lines| ==> !lines[i].Operator?
    ensures OperatorNames(lines) == []
    decreases |lines|
  {
    if lines != [] {
      NoNames(lines[1..]);
    }
  }

  lemma {:induction false} SkipsNameNone(skips: seq<string>)
    ensures forall i :: 0 <= i < |Listing.SkipLines(skips)| ==> !Listing.SkipLines(skips)[i].Operator?
    decreases |skips|
  {
    if skips != [] {
      SkipsNameNone(skips[1..]);
    }
  }

  lemma {:induction false} EntriesNameNone(es: seq<Listing.Entry>)
    ensures OperatorNames(Listing.EntriesLines(es)) == []
    decreases |es|
  {
    if es != [] {
      SkipsNameNone(es[0].skips);
      NoNames(Listing.EntryLines(es[0]));
      NamesConcat(Listing.EntryLines(es[0]), Listing.EntriesLines(es[1..]));
      EntriesNameNone(es[1..]);
    }
  }

  lemma {:induction false} CatalogNamesNone(cs: seq<Listing.Config>)
    ensures OperatorNames(Listing.CatalogLines(cs)) == []
    decreases |cs|
  {
    if cs != [] {
      var c := cs[0];
      NamesConcat(Listing.ConfigLines(c), Listing.CatalogLines(cs[1..]));
      CatalogNamesNone(cs[1..]);
      if c.schema == "olm.channel" {
        NamesConcat([Log.Channel(c.name)], Listing.EntriesLines(c.entries));
        EntriesNameNone(c.entries);
      }
    }
  }

  lemma OperatorNamesOf(fs: Files, dir: string, name: string)
    ensures OperatorNames(OperatorLines(fs, dir, name)) == [name]
  {
    var trace := CatalogTrace(fs, dir, name);
    var tail := if trace.0 then [] else [Log.CatalogError];
    NamesConcat([Log.Operator(name)] + trace.1, tail);
    NamesConcat([Log.Operator(name)], trace.1);
    assert OperatorNames([Log.Operator(name)]) == [name] by { assert [Log.Operator(name)][1..] == []; }
    NoNames(tail);
    TraceNamesNone(fs, dir, name);
  }

  lemma TraceNamesNone(fs: Files, dir: string, name: string)
    ensures OperatorNames(CatalogTrace(fs, dir, name).1) == []
  {
    match ReadFile(fs, Resolve(dir + "/" + name + "/" + "catalog.json"))
    case None =>
    case Some(data) =>
      if Listing.ReadConfigs(data).Some? {
        CatalogNamesNone(Listing.ReadConfigs(data).value);
      }
  }

  lemma {:induction false} AllOperatorNames(fs: Files, dir: string, names: seq<string>)
    ensures OperatorNames(AllOperatorLines(fs, dir, names)) == names
    decreases |names|
  {
    if names != [] {
      var first, rest := OperatorLines(fs, dir, names[0]), AllOperatorLines(fs, dir, names[1..]);
      assert AllOperatorLines(fs, dir, names) == first + rest;
      NamesConcat(first, rest);
      assert OperatorNames(first) == [names[0]] by { OperatorNamesOf(fs, dir, names[0]); }
      assert OperatorNames(rest) == names[1..] by { AllOperatorNames(fs, dir, names[1..]); }
    }
  }

  /**
    A successful run names exactly the entries of the configs directory, each
    once and in the order of their names, whether or not their catalogs can be
    read.
  */
  lemma ListingNames(fs: Files, o: Options, pull: Pull, codec: Codec)
    requires ForOperators(o) && Collect(fs, o, pull, codec).outcome == Done
    ensures var r := Collect(fs, o, pull, codec);
            var names := OperatorNames(r.listing);
            && (forall name :: name in names <==> Cache(o) + ["configs"] + [name] in r.files)
            && forall i, j :: 0 <= i < j < |names| ==>
                 names[i] < names[j] ||
                 exists k :: 0 <= k < |names[i]| && k < |names[j]| && names[i][..k] == names[j][..k] && names[i][k] < names[j][k]
  {
    SortedNames(fs, o, pull, codec);
    SortedExactly(OperatorNames(Collect(fs, o, pull, codec).listing));
  }

  lemma SortedNames(fs: Files, o: Options, pull: Pull, codec: Codec)
    requires ForOperators(o) && Collect(fs, o, pull, codec).outcome == Done
    ensures var r := Collect(fs, o, pull, codec);
            var names := OperatorNames(r.listing);
            Sorted(names) && forall name :: name in names <==> Cache(o) + ["configs"] + [name] in r.files
  {
    var r := Collect(fs, o, pull, codec);
    ConfigsBelowCache(o);
    assert Show(r.files, o) == Some(r.listing);
    ShowNames(r.files, o, ReadDir(r.files, Cache(o) + ["configs"]).value);
  }

  lemma ShowNames(fs: Files, o: Options, names: seq<string>)
    requires ReadDir(fs, Resolve(ConfigsDir(o))) == Some(names)
    ensures Show(fs, o).Some? && OperatorNames(Show(fs, o).value) == names
  {
    var head := [Log.Listing(o.reference), Log.ListingDir(ConfigsDir(o))];
    NoNames(head);
    NamesConcat(head, AllOperatorLines(fs, ConfigsDir(o), names));
    AllOperatorNames(fs, ConfigsDir(o), names);
  }

  // ---------- the listing of an image ----------

  /** The lines of one operator, from the last catalog file that the layers hold for it. */
  function PlanLines(plan: seq<Action>, dir: string, name: string): seq<Log.Line> {
    NamedLines(name, DataTrace(LastWrite(plan, Resolve(dir + "/" + name + "/" + "catalog.json"))))
  }

  function AllPlanLines(plan: seq<Action>, dir: string, names: seq<string>): seq<Log.Line> {
    if names == [] then [] else PlanLines(plan, dir, names[0]) + AllPlanLines(plan, dir, names[1..])
  }

  /** The plan puts something at the path. */
  predicate Puts(plan: seq<Action>, p: Path) {
    LastWrite(plan, p).Some? || MakesDir(plan, p)
  }

  /** After a feasible run of a plan, what is at a path where nothing was. */
  lemma PutAt(fs: Files, plan: seq<Action>, p: Path)
    requires WellFormed(fs) && Run(fs, plan).Ok() && NodeAt(fs, p).None?
    ensures NodeAt(Run(fs, plan).files, p).Some? <==> Puts(plan, p)
    ensures ReadFile(Run(fs, plan).files, p) == LastWrite(plan, p)
  {
    LastWriterWins(fs, plan, p);
  }

  lemma {:induction false} LinesOfPlan(fs: Files, plan: seq<Action>, dir: string, names: seq<string>)
    requires WellFormed(fs) && Run(fs, plan).Ok()
    requires forall q :: OnPath(Resolve(dir), q) ==> NodeAt(fs, q).None?
    ensures AllOperatorLines(Run(fs, plan).files, dir, names) == AllPlanLines(plan, dir, names)
    decreases |names|
  {
    if names != [] {
      FileBelowDir(dir, names[0], "catalog.json");
      PutAt(fs, plan, Resolve(dir + "/" + names[0] + "/" + "catalog.json"));
      LinesOfPlan(fs, plan, dir, names[1..]);
    }
  }

  lemma FileBelowDir(dir: string, name: string, file: string)
    ensures OnPath(Resolve(dir), Resolve(dir + "/" + name + "/" + file))
  {
    ResolveSlash(dir + "/" + name, file);
    ResolveSlash(dir, name);
    assert Resolve(dir) + Resolve(name) + Resolve(file) == Resolve(dir) + (Resolve(name) + Resolve(file));
  }

  /** A run that finds no cache and lists leaves what its plan makes of the copied tree. */
  lemma DoneFiles(fs: Files, o: Options, pull: Pull, codec: Codec)
    requires WellFormed(fs) && WellFormed(pull.content) && ForOperators(o) && Cold(fs, o)
    requires Collect(fs, o, pull, codec).outcome == Done
    ensures var copied, plan := Pulled(fs, o, pull), RunPlan(fs, o, pull, codec);
            && WellFormed(copied) && Cold(copied, o)
            && Run(copied, plan).Ok() && Collect(fs, o, pull, codec).files == Run(copied, plan).files
  {
    var copied, plan := Pulled(fs, o, pull), RunPlan(fs, o, pull, codec);
    ColdListsExactly(fs, o, pull, codec);
    CopyKeepsCold(fs, o, pull);
    SuccessExact(copied, plan);
    EffectiveRun(copied, plan);
    RunIsWork(fs, o, pull, codec);
    GuardAfterCopy(fs, o, pull, LabelOf(fs, o, pull, codec));
  }

  /**
    The listing of a run that finds no cache, as a function of what the image's
    layers ask for: the operators are the sorted names that the layers put into
    the configs directory, and each one's lines come from the last catalog.json
    that any layer writes for it.
  */
  lemma ColdListing(fs: Files, o: Options, pull: Pull, codec: Codec)
    requires WellFormed(fs) && WellFormed(pull.content) && ForOperators(o) && Cold(fs, o)
    requires Collect(fs, o, pull, codec).outcome == Done
    ensures var plan, r := RunPlan(fs, o, pull, codec), Collect(fs, o, pull, codec);
            var names := OperatorNames(r.listing);
            && r.listing == [Log.Listing(o.reference), Log.ListingDir(ConfigsDir(o))] + AllPlanLines(plan, ConfigsDir(o), names)
            && Sorted(names)
            && forall name :: name in names <==> Puts(plan, Cache(o) + ["configs"] + [name])
  {
    var copied, plan, r := Pulled(fs, o, pull), RunPlan(fs, o, pull, codec), Collect(fs, o, pull, codec);
    var names, configs := OperatorNames(r.listing), Cache(o) + ["configs"];
    DoneFiles(fs, o, pull, codec);
    assert Resolve(ConfigsDir(o)) == configs by { ConfigsBelowCache(o); }
    assert forall q :: OnPath(configs, q) ==> NodeAt(copied, q).None? by { NothingInCache(copied, o, configs); }
    assert AllOperatorLines(r.files, ConfigsDir(o), names) == AllPlanLines(plan, ConfigsDir(o), names) by {
      LinesOfPlan(copied, plan, ConfigsDir(o), names);
    }
    ListedNames(fs, o, pull, codec);
    forall name ensures name in names <==> Puts(plan, configs + [name]) {
      assert OnPath(configs, configs + [name]);
      PutAt(copied, plan, configs + [name]);
    }
  }

  /** The listing of any successful run, from its names. */
  lemma ListedNames(fs: Files, o: Options, pull: Pull, codec: Codec)
    requires WellFormed(fs) && WellFormed(pull.content) && ForOperators(o)
    requires Collect(fs, o, pull, codec).outcome == Done
    ensures var r := Collect(fs, o, pull, codec);
            var names := OperatorNames(r.listing);
            && r.listing == [Log.Listing(o.reference), Log.ListingDir(ConfigsDir(o))] + AllOperatorLines(r.files, ConfigsDir(o), names)
            && Sorted(names) && WellFormed(r.files)
            && forall name :: name in names <==> NodeAt(r.files, Cache(o) + ["configs"] + [name]).Some?
  {
    var r := Collect(fs, o, pull, codec);
    DoneIsWarm(fs, o, pull, codec);
    SortedNames(fs, o, pull, codec);
    CollectFrame(fs, o, pull, codec, []);
    ConfigsBelowCache(o);
    ShowNames(r.files, o, ReadDir(r.files, Cache(o) + ["configs"]).value);
  }

  lemma NothingInCache(fs: Files, o: Options, p: Path)
    requires WellFormed(fs) && Cold(fs, o) && OnPath(Cache(o), p)
    ensures forall q :: OnPath(p, q) ==> NodeAt(fs, q).None?
  {
    forall q | OnPath(p, q) ensures NodeAt(fs, q).None? {
      OnPathTransitive(Cache(o), p, q);
      NothingBelowMissing(fs, Cache(o), q);
    }
  }

  // ---------- the listing does not depend on the rest of the disk ----------

  lemma BlobBelowCopy(o: Options, hex: string)
    ensures BlobName(o, hex) == BlobsDir(o) + "/" + hex
    ensures OnPath(Copy(o), Resolve(BlobName(o, hex)))
  {
    Directories(o);
    JoinOneMore(o.dir, "operator-images", Key(o.reference), "blobs/sha256");
    JoinTwoMore(o.dir, "operator-images", Key(o.reference), "blobs/sha256", hex);
    FileBelowDir(CopyDir(o), "blobs/sha256", hex);
  }

  ghost predicate SameCopy(a: Files, b: Files, o: Options) {
    forall q :: OnPath(Copy(o), q) ==> NodeAt(a, q) == NodeAt(b, q)
  }

  lemma SameDescription(a: Files, b: Files, o: Options, codec: Codec)
    requires SameCopy(a, b, o)
    ensures Describe(a, o, codec) == Describe(b, o, codec)
    ensures SameBlobs(a, b, BlobsDir(o))
  {
    var index := Copy(o) + ["index.json"];
    IndexPath(o);
    assert OnPath(Copy(o), index) && ReadFile(a, index) == ReadFile(b, index);
    forall hex: string ensures ReadFile(a, Resolve(BlobName(o, hex))) == ReadFile(b, Resolve(BlobName(o, hex))) {
      BlobBelowCopy(o, hex);
    }
    forall hex: string
      ensures NodeAt(a, Resolve(BlobsDir(o) + "/" + hex)) == NodeAt(b, Resolve(BlobsDir(o) + "/" + hex))
    {
      BlobBelowCopy(o, hex);
    }
  }

  lemma TailMembers(a: seq<string>, x: string)
    requires a != [] && Sorted(a)
    ensures x in a[1..] <==> x in a && x != a[0]
  {
    assert a == [a[0]] + a[1..];
    BeforeOrder(a[0], a[0]);
    assert forall i :: 1 <= i < |a| ==> Before(a[0], a[i]) && a[i] != a[0];
  }

  lemma {:induction false} SortedUnique(a: seq<string>, b: seq<string>)
    requires Sorted(a) && Sorted(b) && forall x :: x in a <==> x in b
    ensures a == b
    decreases |a|
  {
    Members(a);
    Members(b);
    if a != [] {
      assert a[0] in b && b[0] in a;
      BeforeOrder(a[0], b[0]);
      assert a == [a[0]] + a[1..] && b == [b[0]] + b[1..];
      forall x ensures x in a[1..] <==> x in b[1..] {
        TailMembers(a, x);
        TailMembers(b, x);
      }
      SortedUnique(a[1..], b[1..]);
    }
  }

  lemma Members(a: seq<string>)
    ensures a == [] <==> forall x :: x !in a
  {
    assert a == [] || a[0] in a;
  }

  lemma SamePulled(fs: Files, fs': Files, o: Options, pull: Pull)
    requires WellFormed(fs) && WellFormed(fs') && WellFormed(pull.content) && ForOperators(o)
    requires Cold(fs, o) && Cold(fs', o) && MakeAll(fs, Copy(o)).Some? && MakeAll(fs', Copy(o)).Some?
    ensures SameCopy(Pulled(fs, o, pull), Pulled(fs', o, pull), o)
  {
    Directories(o);
    MakeAllExact(fs, Copy(o));
    MakeAllExact(fs', Copy(o));
    assert OnPath(Copy(o), Copy(o));
    forall q | OnPath(Copy(o), q) ensures NodeAt(Pulled(fs, o, pull), q) == NodeAt(Pulled(fs', o, pull), q) {
      GraftAt(MakeAll(fs, Copy(o)).value, Copy(o), pull.content, q);
      GraftAt(MakeAll(fs', Copy(o)).value, Copy(o), pull.content, q);
    }
  }

  /** Two runs that find no cache and pull the same image list the same, whatever else is on their disks. */
  lemma ListingOfImage(fs: Files, fs': Files, o: Options, pull: Pull, codec: Codec)
    requires WellFormed(fs) && WellFormed(fs') && WellFormed(pull.content) && ForOperators(o)
    requires Cold(fs, o) && Cold(fs', o)
    requires Collect(fs, o, pull, codec).outcome == Done && Collect(fs', o, pull, codec).outcome == Done
    ensures Collect(fs, o, pull, codec).listing == Collect(fs', o, pull, codec).listing
  {
    ColdListsExactly(fs, o, pull, codec);
    ColdListsExactly(fs', o, pull, codec);
    SamePulled(fs, fs', o, pull);
    var a, b := Pulled(fs, o, pull), Pulled(fs', o, pull);
    SameDescription(a, b, o, codec);
    var d := Describe(a, o, codec);
    SamePlan(a, b, codec.gunzip, BlobsDir(o), CacheDir(o), TrimSlashes(d.tag), d.layers);
    assert RunPlan(fs, o, pull, codec) == RunPlan(fs', o, pull, codec);
    ColdListing(fs, o, pull, codec);
    ColdListing(fs', o, pull, codec);
    SortedUnique(OperatorNames(Collect(fs, o, pull, codec).listing), OperatorNames(Collect(fs', o, pull, codec).listing));
  }
}
