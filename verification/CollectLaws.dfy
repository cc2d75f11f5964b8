/**
  One run of the operator branch and repeated runs for one reference: the
  cache key and its directories, what a run may touch, how cold and warm runs
  compare, and which references do not meet.
*/
module CollectLaws {
  import opened Wrappers
  import opened Text
  import opened FileTree
  import opened Extraction
  import opened LayerLaws
  import opened Collecting

  // ---------- the cache key ----------

  /** A name or tag of a reference. */
  predicate IsPart(s: string) {
    IsComponent(s) && ':' !in s
  }

  lemma JoinTwo(a: string, b: string, sep: string)
    ensures Join([a, b], sep) == a + sep + b
  {
    assert [a, b][1..] == [b];
  }

  /**
    The key of any reference: what follows its last slash, or all of it, with
    every colon made a slash and nothing else changed.
  */
  lemma KeyExactly(prefix: string, last: string)
    requires '/' !in last
    ensures Key(prefix + "/" + last) == Key(last) && |Key(last)| == |last|
    ensures forall i :: 0 <= i < |last| ==> Key(last)[i] == if last[i] == ':' then '/' else last[i]
  {
    SplitAt(prefix, last, '/');
    SplitWithout(last, '/');
    ColonsToSlashes(last);
  }

  lemma {:induction false} ColonsToSlashes(s: string)
    ensures |ReplaceAll(s, ":", "/")| == |s|
    ensures forall i :: 0 <= i < |s| ==> ReplaceAll(s, ":", "/")[i] == if s[i] == ':' then '/' else s[i]
    decreases |s|
  {
    if s != "" {
      ColonsToSlashes(s[1..]);
      assert ":" <= s <==> s[0] == ':';
    }
  }

  /** Split at the last slash, then the colon made a slash: name/tag, whatever the prefix. */
  lemma KeyOfTagged(prefix: string, name: string, tag: string)
    requires IsPart(name) && IsPart(tag)
    ensures Key(prefix + "/" + (name + ":" + tag)) == name + "/" + tag
    ensures Resolve(Key(prefix + "/" + (name + ":" + tag))) == [name, tag]
  {
    var last := name + ":" + tag;
    SplitAt(prefix, last, '/');
    SplitWithout(last, '/');
    ReplaceIsSplitJoin(last, ":", "/");
    SplitAt(name, tag, ':');
    SplitWithout(name, ':');
    SplitWithout(tag, ':');
    JoinTwo(name, tag, "/");
    ResolveSlash(name, tag);
    ResolveComponent(name);
    ResolveComponent(tag);
  }

  lemma KeyOfUntagged(prefix: string, name: string)
    requires IsPart(name)
    ensures Key(prefix + "/" + name) == name
    ensures Resolve(Key(prefix + "/" + name)) == [name]
  {
    SplitAt(prefix, name, '/');
    SplitWithout(name, '/');
    ReplaceIsSplitJoin(name, ":", "/");
    SplitWithout(name, ':');
    ResolveComponent(name);
  }

  /** Neither key's directory contains the other's. */
  predicate Unrelated(k: Path, l: Path) {
    !OnPath(k, l) && !OnPath(l, k)
  }

  /** Different tagged references have unrelated keys, and equal keys mean equal name and tag. */
  lemma TaggedKeys(prefix: string, name: string, tag: string, prefix': string, name': string, tag': string)
    requires IsPart(name) && IsPart(tag) && IsPart(name') && IsPart(tag')
    ensures var k, l := Key(prefix + "/" + (name + ":" + tag)), Key(prefix' + "/" + (name' + ":" + tag'));
            && (k == l <==> name == name' && tag == tag')
            && (k != l ==> Unrelated(Resolve(k), Resolve(l)))
  {
    KeyOfTagged(prefix, name, tag);
    KeyOfTagged(prefix', name', tag');
    assert [name, tag] == [name', tag'] <==> name == name' && tag == tag' by {
      assert [name, tag][0] == name && [name, tag][1] == tag;
      assert [name', tag'][0] == name' && [name', tag'][1] == tag';
    }
  }

  // ---------- the directories of a run ----------

  function DirOf(o: Options): Path {
    Resolve(o.dir)
  }

  function KeyPath(o: Options): Path {
    Resolve(Key(o.reference))
  }

  function Cache(o: Options): Path {
    DirOf(o) + ["hold-operators"] + KeyPath(o)
  }

  function Copy(o: Options): Path {
    DirOf(o) + ["operator-images"] + KeyPath(o)
  }

  lemma JoinThree(a: string, b: string, c: string)
    ensures Join([a, b, c], "/") == a + "/" + (b + "/" + c)
  {
    assert [a, b, c][1..] == [b, c];
    JoinTwo(b, c, "/");
    assert a + "/" + (b + "/" + c) == (a + "/") + (b + "/" + c);
  }

  lemma JoinFour(a: string, b: string, c: string, d: string)
    ensures Join([a, b, c, d], "/") == a + "/" + (b + "/" + (c + "/" + d))
  {
    assert [a, b, c, d][1..] == [b, c, d];
    JoinThree(b, c, d);
  }

  lemma JoinFive(a: string, b: string, c: string, d: string, e: string)
    ensures Join([a, b, c, d, e], "/") == a + "/" + (b + "/" + (c + "/" + (d + "/" + e)))
  {
    assert [a, b, c, d, e][1..] == [b, c, d, e];
    JoinFour(b, c, d, e);
  }

  lemma ResolveThree(a: string, b: string, c: string)
    requires IsComponent(b)
    ensures Resolve(Join([a, b, c], "/")) == Resolve(a) + [b] + Resolve(c)
  {
    JoinThree(a, b, c);
    ResolveSlash(a, b + "/" + c);
    ResolveSlash(b, c);
    ResolveComponent(b);
    assert Resolve(a) + ([b] + Resolve(c)) == Resolve(a) + [b] + Resolve(c);
  }

  /** A fourth name is joined to the first three. */
  lemma JoinOneMore(a: string, b: string, c: string, d: string)
    ensures Join([a, b, c, d], "/") == Join([a, b, c], "/") + "/" + d
  {
    JoinFour(a, b, c, d);
    JoinThree(a, b, c);
    assert a + "/" + (b + "/" + (c + "/" + d)) == (a + "/" + (b + "/" + c)) + "/" + d;
  }

  lemma JoinTwoMore(a: string, b: string, c: string, d: string, e: string)
    ensures Join([a, b, c, d, e], "/") == Join([a, b, c, d], "/") + "/" + e
  {
    JoinFive(a, b, c, d, e);
    JoinFour(a, b, c, d);
    assert a + "/" + (b + "/" + (c + "/" + (d + "/" + e))) == (a + "/" + (b + "/" + (c + "/" + d))) + "/" + e;
  }

  /** The cache and the copy of a run resolve below the working directory. */
  lemma Directories(o: Options)
    ensures Resolve(CacheDir(o)) == Cache(o) && Resolve(CopyDir(o)) == Copy(o)
  {
    ResolveThree(o.dir, "hold-operators", Key(o.reference));
    ResolveThree(o.dir, "operator-images", Key(o.reference));
  }

  lemma ResolveRooted(a: string, b: string)
    requires IsComponent(b)
    ensures Resolve(a + "/" + ("/" + b)) == Resolve(a) + [b]
  {
    ResolveSlash(a, "/" + b);
    ResolveSlash("", b);
    ResolveComponent(b);
    assert "" + "/" + b == "/" + b;
    assert Split("", "/") == [""] && Clean([""]) == [];
  }

  lemma ConfigsBelowCache(o: Options)
    ensures Resolve(ConfigsDir(o)) == Cache(o) + ["configs"]
  {
    Directories(o);
    JoinOneMore(o.dir, "hold-operators", Key(o.reference), "/configs");
    assert "/" + "configs" == "/configs";
    ResolveRooted(CacheDir(o), "configs");
  }

  lemma ForkBelow(a: string, b: string, c: string, b': string, d: string)
    requires IsComponent(b) && IsComponent(b') && b != b'
    ensures Apart(Join([a, b, c, d], "/"), Join([a, b', c], "/"))
  {
    JoinOneMore(a, b, c, d);
    ResolveThree(a, b, c);
    ResolveThree(a, b', c);
    ResolveSlash(Join([a, b, c], "/"), d);
    var rest := Resolve(c) + Resolve(d);
    assert Resolve(Join([a, b, c, d], "/")) == Resolve(a) + [b] + rest;
    Fork(Resolve(a), b, b', rest, Resolve(c));
    Fork(Resolve(a), b', b, Resolve(c), rest);
  }

  /** The blobs and the cache of a run lie apart. */
  lemma BlobsApart(o: Options)
    ensures Apart(BlobsDir(o), CacheDir(o))
  {
    ForkBelow(o.dir, "operator-images", Key(o.reference), "hold-operators", "blobs/sha256");
  }

  // ---------- blob addressing ----------

  /**
    A digest sha256:hex passes both checks and splits into its hex part, and
    the manifest, config and layer files all lie at copyDir/blobs/sha256/hex.
  */
  lemma BlobAddress(o: Options, hex: string)
    requires ':' !in hex
    ensures var digest := "sha256" + ":" + hex;
            Contains(digest, "sha256") && DigestHex(digest) == Some(hex)
    ensures BlobsDir(o) + "/" + hex == CopyDir(o) + "/" + "blobs/sha256" + "/" + hex
    ensures BlobName(o, hex) == CopyDir(o) + "/" + "blobs/sha256" + "/" + hex
  {
    DigestParts("sha256", hex);
    JoinOneMore(o.dir, "operator-images", Key(o.reference), "blobs/sha256");
    JoinTwoMore(o.dir, "operator-images", Key(o.reference), "blobs/sha256", hex);
  }

  lemma DigestParts(algorithm: string, hex: string)
    requires ':' !in algorithm && ':' !in hex
    ensures Contains(algorithm + ":" + hex, algorithm) && DigestHex(algorithm + ":" + hex) == Some(hex)
  {
    SplitAt(algorithm, hex, ':');
    SplitWithout(algorithm, ':');
    SplitWithout(hex, ':');
    assert algorithm <= algorithm + ":" + hex;
  }

  // ---------- what one run may touch ----------

  /** A path is spared by a run: unchanged, or a missing ancestor that became a directory. */
  predicate Kept(before: Files, after: Files, o: Options, q: Path) {
    NodeAt(after, q) == NodeAt(before, q) ||
    ((OnPath(q, Cache(o)) || OnPath(q, Copy(o))) && NodeAt(before, q).None? && NodeAt(after, q) == Some(Dir))
  }

  predicate Outside(o: Options, q: Path) {
    !OnPath(Cache(o), q) && !OnPath(Copy(o), q)
  }

  /** The part of a run before the extraction: only the copy directory changes. */
  lemma CopyFrame(fs: Files, o: Options, pull: Pull, q: Path)
    requires WellFormed(fs) && WellFormed(pull.content)
    requires MakeAll(fs, Copy(o)).Some?
    ensures WellFormed(Copied(MakeAll(fs, Copy(o)).value, o, pull))
    ensures !OnPath(Copy(o), q) ==> Kept(fs, Copied(MakeAll(fs, Copy(o)).value, o, pull), o, q)
  {
    Directories(o);
    MakeAllExact(fs, Copy(o));
    var made := MakeAll(fs, Copy(o)).value;
    assert OnPath(Copy(o), Copy(o));
    GraftExact(made, Copy(o), pull.content);
  }

  lemma LayersFrame(fs: Files, o: Options, codec: Codec, tag: string, layers: seq<string>, q: Path)
    requires WellFormed(fs)
    ensures WellFormed(FetchLayers(fs, o, codec, tag, layers).files)
    ensures !OnPath(Cache(o), q) ==> Kept(fs, FetchLayers(fs, o, codec, tag, layers).files, o, q)
  {
    Directories(o);
    if Missing(fs, GuardPath(o, tag)) {
      RunLayersWellFormed(fs, codec.gunzip, BlobsDir(o), CacheDir(o), TrimSlashes(tag), layers);
      if !OnPath(Cache(o), q) {
        RunLayersFrame(fs, codec.gunzip, BlobsDir(o), CacheDir(o), TrimSlashes(tag), layers, q);
      }
    }
  }

  lemma ImageFrame(fs: Files, o: Options, codec: Codec, q: Path)
    requires WellFormed(fs)
    ensures WellFormed(FetchImage(fs, o, codec).files)
    ensures !OnPath(Cache(o), q) ==> Kept(fs, FetchImage(fs, o, codec).files, o, q)
  {
    var d := Describe(fs, o, codec);
    if d.Usable? {
      LayersFrame(fs, o, codec, d.tag, d.layers, q);
    }
  }

  /** One run keeps the tree well formed and everything outside its two directories. */
  lemma CollectFrame(fs: Files, o: Options, pull: Pull, codec: Codec, q: Path)
    requires WellFormed(fs) && WellFormed(pull.content)
    ensures WellFormed(Collect(fs, o, pull, codec).files)
    ensures Outside(o, q) ==> Kept(fs, Collect(fs, o, pull, codec).files, o, q)
  {
    if MakeAll(fs, Copy(o)).Some? {
      FetchFrame(fs, o, pull, codec, q);
    }
    FetchCases(fs, o, pull, codec);
  }

  lemma ColdRun(fs: Files, o: Options, pull: Pull, codec: Codec)
    requires Cold(fs, o) && ForOperators(o)
    ensures var f := Fetch(fs, o, pull, codec);
            Collect(fs, o, pull, codec) == if f.outcome.Done? then List(f, o) else f
  {
    Directories(o);
  }

  /** Listing changes no file and does not pull; it works exactly if the configs directory is there. */
  lemma ListFacts(r: RunResult, o: Options)
    ensures var l := List(r, o);
            && l.files == r.files && l.pulled == r.pulled && l.fetching == r.fetching
            && (r.outcome.Done? ==>
                  l.outcome == if IsDir(r.files, Cache(o) + ["configs"]) then Done else Stopped(ListingConfigs, false))
  {
    ConfigsBelowCache(o);
  }

  lemma FetchFacts(fs: Files, o: Options, pull: Pull, codec: Codec)
    ensures var f := Fetch(fs, o, pull, codec);
            if MakeAll(fs, Copy(o)).Some? then f.pulled && f.outcome != Stopped(MakingCopyDir, false)
            else f.files == fs && !f.pulled && f.outcome == Stopped(MakingCopyDir, false)
  {
    Directories(o);
    if MakeAll(fs, Copy(o)).Some? {
      ImageFacts(Copied(MakeAll(fs, Copy(o)).value, o, pull), o, codec);
    }
  }

  lemma ImageFacts(fs: Files, o: Options, codec: Codec)
    ensures var r := FetchImage(fs, o, codec);
            r.pulled && r.outcome != Stopped(MakingCopyDir, false)
  {
  }

  /** The tree after a run is the one before, or the one its fetch leaves. */
  lemma FetchCases(fs: Files, o: Options, pull: Pull, codec: Codec)
    ensures var r := Collect(fs, o, pull, codec);
            r.files == fs || (MakeAll(fs, Copy(o)).Some? && r.files == Fetch(fs, o, pull, codec).files)
  {
    if ForOperators(o) {
      if Cold(fs, o) {
        ColdRun(fs, o, pull, codec);
        FetchFacts(fs, o, pull, codec);
        ListFacts(Fetch(fs, o, pull, codec), o);
      } else {
        Directories(o);
        ListFacts(RunResult(fs, Done, false, [], []), o);
      }
    }
  }

  lemma FetchFrame(fs: Files, o: Options, pull: Pull, codec: Codec, q: Path)
    requires WellFormed(fs) && WellFormed(pull.content) && MakeAll(fs, Copy(o)).Some?
    ensures WellFormed(Fetch(fs, o, pull, codec).files)
    ensures Outside(o, q) ==> Kept(fs, Fetch(fs, o, pull, codec).files, o, q)
  {
    Directories(o);
    var copied := Copied(MakeAll(fs, Copy(o)).value, o, pull);
    CopyFrame(fs, o, pull, q);
    if pull.ok {
      ImageFrame(copied, o, codec, q);
      assert Fetch(fs, o, pull, codec).files == FetchImage(copied, o, codec).files;
    }
  }

  // ---------- a warm run ----------

  predicate Cold(fs: Files, o: Options) {
    Missing(fs, Cache(o))
  }

  predicate ForOperators(o: Options) {
    Contains(o.imageIndex, "operator")
  }

  /** Once the cache directory is there, a run pulls nothing and changes nothing. */
  lemma WarmRun(fs: Files, o: Options, pull: Pull, codec: Codec)
    requires ForOperators(o) && !Cold(fs, o)
    ensures var r := Collect(fs, o, pull, codec);
            && r.files == fs && !r.pulled && r.fetching == []
            && (r.outcome == Done <==> Show(fs, o).Some?)
            && (r.outcome == Done ==> Some(r.listing) == Show(fs, o))
  {
    Directories(o);
  }

  /** A run that lists has a cache directory at its end. */
  lemma DoneIsWarm(fs: Files, o: Options, pull: Pull, codec: Codec)
    requires WellFormed(fs) && WellFormed(pull.content) && ForOperators(o)
    requires Collect(fs, o, pull, codec).outcome == Done
    ensures var r := Collect(fs, o, pull, codec);
            !Cold(r.files, o) && Show(r.files, o) == Some(r.listing)
  {
    var r := Collect(fs, o, pull, codec);
    assert Show(r.files, o) == Some(r.listing) by { DoneShows(fs, o, pull, codec); }
    assert WellFormed(r.files) by { CollectFrame(fs, o, pull, codec, []); }
    assert IsDir(r.files, Cache(o) + ["configs"]) by { ConfigsBelowCache(o); }
    ListedIsWarm(r.files, o);
  }

  lemma DoneShows(fs: Files, o: Options, pull: Pull, codec: Codec)
    requires ForOperators(o) && Collect(fs, o, pull, codec).outcome == Done
    ensures Show(Collect(fs, o, pull, codec).files, o) == Some(Collect(fs, o, pull, codec).listing)
  {
  }

  lemma ListedIsWarm(fs: Files, o: Options)
    requires WellFormed(fs) && IsDir(fs, Cache(o) + ["configs"])
    ensures !Cold(fs, o)
  {
    var configs := Cache(o) + ["configs"];
    assert OnPath(Cache(o), configs) && Cache(o) != configs;
    AncestorIsDir(fs, configs, Cache(o));
    MissingExact(fs, Cache(o));
  }

  // ---------- sequences of runs ----------

  datatype Request = Request(o: Options, pull: Pull)

  function RunAll(fs: Files, requests: seq<Request>, codec: Codec): (results: seq<RunResult>)
    ensures |results| == |requests|
    decreases |requests|
  {
    if requests == [] then []
    else
      var r := Collect(fs, requests[0].o, requests[0].pull, codec);
      [r] + RunAll(r.files, requests[1..], codec)
  }

  /** The tree after all runs. */
  function After(fs: Files, requests: seq<Request>, codec: Codec): Files
    decreases |requests|
  {
    if requests == [] then fs
    else After(Collect(fs, requests[0].o, requests[0].pull, codec).files, requests[1..], codec)
  }

  ghost predicate LegalPulls(requests: seq<Request>) {
    forall i :: 0 <= i < |requests| ==> WellFormed(requests[i].pull.content)
  }

  /** A run for the same operator reference in the same working directory. */
  predicate IsSame(o: Options, other: Options) {
    other.dir == o.dir && other.reference == o.reference && ForOperators(other)
  }

  predicate SameReference(o: Options, requests: seq<Request>) {
    forall i :: 0 <= i < |requests| ==> IsSame(o, requests[i].o)
  }

  lemma SameShow(fs: Files, o: Options, o': Options)
    requires o.dir == o'.dir && o.reference == o'.reference
    ensures Show(fs, o) == Show(fs, o') && Cache(o) == Cache(o')
  {
  }

  /** A successful run with a given listing and tree, which pulled or did not. */
  predicate Agrees(r: RunResult, first: RunResult, pulls: bool) {
    r.outcome == Done && r.listing == first.listing && r.files == first.files && r.pulled == pulls
  }

  lemma {:induction false} WarmRuns(first: RunResult, o: Options, requests: seq<Request>, codec: Codec)
    requires !Cold(first.files, o) && Show(first.files, o) == Some(first.listing) && SameReference(o, requests)
    ensures forall i :: 0 <= i < |requests| ==> Agrees(RunAll(first.files, requests, codec)[i], first, false)
    decreases |requests|
  {
    if requests != [] {
      var next := requests[0];
      SameShow(first.files, o, next.o);
      WarmRun(first.files, next.o, next.pull, codec);
      WarmRuns(first, o, requests[1..], codec);
    }
  }

  /**
    Cold and warm runs agree.  Start without a cache and run any number of
    times for one reference: if the first run succeeds, so does every other,
    all of them log the same listing, only the first pulls, and no later run
    changes a file.
  */
  lemma ColdAndWarm(fs: Files, o: Options, requests: seq<Request>, codec: Codec)
    requires WellFormed(fs) && LegalPulls(requests) && SameReference(o, requests)
    requires requests != [] && Cold(fs, o)
    requires RunAll(fs, requests, codec)[0].outcome == Done
    ensures forall i :: 0 <= i < |requests| ==>
              Agrees(RunAll(fs, requests, codec)[i], RunAll(fs, requests, codec)[0], i == 0)
  {
    var first, rest := requests[0], requests[1..];
    var rs := RunAll(fs, requests, codec);
    var r := rs[0];
    var later := RunAll(r.files, rest, codec);
    assert r == Collect(fs, first.o, first.pull, codec) && rs == [r] + later;
    assert r.pulled && !Cold(r.files, o) && Show(r.files, o) == Some(r.listing) by {
      FirstRun(fs, o, first, codec);
    }
    WarmRuns(r, o, rest, codec);
    forall i | 0 <= i < |requests| ensures Agrees(rs[i], r, i == 0) {
      assert i > 0 ==> rs[i] == later[i - 1];
    }
  }

  lemma FirstRun(fs: Files, o: Options, first: Request, codec: Codec)
    requires WellFormed(fs) && WellFormed(first.pull.content) && IsSame(o, first.o) && Cold(fs, o)
    requires Collect(fs, first.o, first.pull, codec).outcome == Done
    ensures var r := Collect(fs, first.o, first.pull, codec);
            r.pulled && !Cold(r.files, o) && Show(r.files, o) == Some(r.listing)
  {
    SameShow(fs, o, first.o);
    ColdPulls(fs, first.o, first.pull, codec);
    DoneIsWarm(fs, first.o, first.pull, codec);
    SameShow(Collect(fs, first.o, first.pull, codec).files, o, first.o);
  }

  /** A cold run that gets past creating the copy directory calls Mirror.Run. */
  lemma ColdPulls(fs: Files, o: Options, pull: Pull, codec: Codec)
    requires Cold(fs, o) && ForOperators(o)
    ensures var r := Collect(fs, o, pull, codec);
            r.pulled <==> r.outcome != Stopped(MakingCopyDir, false)
  {
    var f := Fetch(fs, o, pull, codec);
    ColdRun(fs, o, pull, codec);
    FetchFacts(fs, o, pull, codec);
    ListFacts(f, o);
  }

  // ---------- failures before the extraction ----------

  predicate StoppedEarly(outcome: Outcome) {
    outcome.Stopped? && !outcome.stage.Extracting? && !outcome.stage.ListingConfigs?
  }

  /** No regular file gets in the way of the cache, nor does the cache appear, unless something below it changes. */
  lemma StaysCold(before: Files, after: Files, o: Options, cache: Path)
    requires WellFormed(before) && WellFormed(after)
    requires forall q :: OnPath(q, cache) ==> Kept(before, after, o, q)
    requires !OnPath(cache, Cache(o)) && !OnPath(cache, Copy(o))
    ensures Missing(after, cache) <==> Missing(before, cache)
  {
    MissingExact(before, cache);
    MissingExact(after, cache);
    assert OnPath(cache, cache) && Kept(before, after, o, cache);
    forall q | OnPath(q, cache) ensures IsFile(after, q) <==> IsFile(before, q) {
      assert Kept(before, after, o, q);
    }
  }

  /** A run that stops before the extraction leaves the cache directory missing, so the next one tries again. */
  lemma EarlyStopStaysCold(fs: Files, o: Options, pull: Pull, codec: Codec)
    requires WellFormed(fs) && WellFormed(pull.content) && ForOperators(o) && Cold(fs, o)
    requires StoppedEarly(Collect(fs, o, pull, codec).outcome)
    ensures Cold(Collect(fs, o, pull, codec).files, o)
  {
    Directories(o);
    match MakeAll(fs, Copy(o))
    case None =>
    case Some(made) =>
      var copied := Copied(made, o, pull);
      assert Collect(fs, o, pull, codec).files == copied;
      CopyFrame(fs, o, pull, []);
      CopyKeepsCold(fs, o, pull);
  }

  /** A path in the directory of all caches. */
  function Held(o: Options, x: Path): Path {
    DirOf(o) + ["hold-operators"] + x
  }

  /** The copy changes nothing about which caches are missing, its own or another. */
  lemma CopyKeepsMissing(fs: Files, o: Options, pull: Pull, x: Path)
    requires WellFormed(fs) && WellFormed(pull.content) && MakeAll(fs, Copy(o)).Some?
    ensures var copied := Copied(MakeAll(fs, Copy(o)).value, o, pull);
            WellFormed(copied) && (Missing(copied, Held(o, x)) <==> Missing(fs, Held(o, x)))
  {
    var copied := Copied(MakeAll(fs, Copy(o)).value, o, pull);
    var p := Held(o, x);
    CopyFrame(fs, o, pull, []);
    forall q | OnPath(q, p) ensures IsFile(copied, q) <==> IsFile(fs, q) {
      CopySpares(fs, o, pull, x, q);
    }
    assert NodeAt(copied, p).None? <==> NodeAt(fs, p).None? by {
      assert OnPath(p, p);
      CopySpares(fs, o, pull, x, p);
      Fork(DirOf(o), "hold-operators", "operator-images", x, KeyPath(o));
    }
    MissingExact(fs, p);
    MissingExact(copied, p);
  }

  lemma CopyKeepsCold(fs: Files, o: Options, pull: Pull)
    requires WellFormed(fs) && WellFormed(pull.content) && MakeAll(fs, Copy(o)).Some?
    ensures var copied := Copied(MakeAll(fs, Copy(o)).value, o, pull);
            WellFormed(copied) && (Cold(copied, o) <==> Cold(fs, o))
  {
    CopyKeepsMissing(fs, o, pull, KeyPath(o));
    assert Cache(o) == Held(o, KeyPath(o));
  }

  /** The copy leaves the caches and the directories above them alone, or makes a missing one a directory. */
  lemma CopySpares(fs: Files, o: Options, pull: Pull, x: Path, q: Path)
    requires WellFormed(fs) && WellFormed(pull.content) && MakeAll(fs, Copy(o)).Some?
    requires OnPath(q, Held(o, x))
    ensures var copied := Copied(MakeAll(fs, Copy(o)).value, o, pull);
            NodeAt(copied, q) == NodeAt(fs, q) ||
            (OnPath(q, Copy(o)) && NodeAt(fs, q).None? && NodeAt(copied, q) == Some(Dir))
  {
    Directories(o);
    MakeAllExact(fs, Copy(o));
    var made := MakeAll(fs, Copy(o)).value;
    assert OnPath(Copy(o), Copy(o));
    GraftAt(made, Copy(o), pull.content, q);
    Fork(DirOf(o), "operator-images", "hold-operators", KeyPath(o), x);
    OnPathTransitive(Copy(o), q, Held(o, x));
  }

  // ---------- runs for other references ----------

  /** The run works in the same directory for an unrelated key. */
  predicate Elsewhere(o: Options, other: Options) {
    DirOf(o) == DirOf(other) && Unrelated(KeyPath(o), KeyPath(other))
  }

  lemma UnrelatedPaths(d: Path, a: string, k: Path, l: Path)
    requires Unrelated(k, l)
    ensures Unrelated(d + [a] + k, d + [a] + l)
  {
    OnPathShift(d + [a], k, l);
    OnPathShift(d + [a], l, k);
  }

  /** The caches and copies of unrelated keys lie apart, all four ways. */
  lemma ElsewherePaths(o: Options, other: Options)
    requires Elsewhere(o, other)
    ensures Unrelated(Cache(o), Cache(other)) && Unrelated(Cache(o), Copy(other))
  {
    UnrelatedPaths(DirOf(o), "hold-operators", KeyPath(o), KeyPath(other));
    Fork(DirOf(o), "hold-operators", "operator-images", KeyPath(o), KeyPath(other));
    Fork(DirOf(o), "operator-images", "hold-operators", KeyPath(other), KeyPath(o));
  }

  /** A run for an unrelated key changes nothing in this cache, nor whether it is there. */
  lemma RunElsewhere(fs: Files, o: Options, other: Options, pull: Pull, codec: Codec)
    requires WellFormed(fs) && WellFormed(pull.content) && Elsewhere(o, other)
    ensures var r := Collect(fs, other, pull, codec);
            && (forall q :: OnPath(Cache(o), q) ==> NodeAt(r.files, q) == NodeAt(fs, q))
            && (Cold(r.files, o) <==> Cold(fs, o))
  {
    var after := Collect(fs, other, pull, codec).files;
    CollectFrame(fs, other, pull, codec, []);
    ElsewherePaths(o, other);
    forall q | OnPath(Cache(o), q) ensures NodeAt(after, q) == NodeAt(fs, q) {
      InsideIsOutside(o, other, q);
      CollectFrame(fs, other, pull, codec, q);
    }
    forall q | OnPath(q, Cache(o)) ensures Kept(fs, after, other, q) {
      AboveIsOutside(o, other, q);
      CollectFrame(fs, other, pull, codec, q);
    }
    StaysCold(fs, after, other, Cache(o));
  }

  lemma InsideIsOutside(o: Options, other: Options, q: Path)
    requires Elsewhere(o, other) && OnPath(Cache(o), q)
    ensures Outside(other, q) && !OnPath(q, Cache(other)) && !OnPath(q, Copy(other))
  {
    ElsewherePaths(o, other);
    OnOneLine(Cache(o), Cache(other), q);
    OnOneLine(Cache(o), Copy(other), q);
    OnPathTransitive(Cache(o), q, Cache(other));
    OnPathTransitive(Cache(o), q, Copy(other));
  }

  lemma AboveIsOutside(o: Options, other: Options, q: Path)
    requires Elsewhere(o, other) && OnPath(q, Cache(o))
    ensures Outside(other, q)
  {
    ElsewherePaths(o, other);
    OnPathTransitive(Cache(other), q, Cache(o));
    OnPathTransitive(Copy(other), q, Cache(o));
  }
}
