/**
  The listing of a run, operator by operator (pkg/index/list-images.go:128-142):
  what stands between one operator's line and the next.
*/
module OperatorLaws {
  import opened Wrappers
  import opened Text
  import opened FileTree
  import opened Extraction
  import opened EntryLaws
  import opened Manifests
  import opened Collecting
  import opened CollectLaws
  import opened CacheLaws
  import opened ColdListing
  import opened DescriptorLaws
  import Listing
  import Log

  /** The place of the first operator line from i on, or the end. */
  function NextOperator(lines: seq<Log.Line>, i: nat): (n: nat)
    requires i <= |lines|
    ensures i <= n <= |lines|
    ensures n < |lines| ==> lines[n].Operator?
    ensures forall k :: i <= k < n ==> !lines[k].Operator?
    decreases |lines| - i
  {
    if i == |lines| || lines[i].Operator? then i else NextOperator(lines, i + 1)
  }

  predicate Quiet(lines: seq<Log.Line>) {
    forall i :: 0 <= i < |lines| ==> !lines[i].Operator?
  }

  predicate StartsWithOperator(lines: seq<Log.Line>) {
    lines != [] ==> lines[0].Operator?
  }

  /** What is logged for a catalog file: its lines, or an error. */
  function Report(node: Option<Node>): seq<Log.Line> {
    match node
    case Some(File(data)) =>
      (match Listing.ReadConfigs(data)
       case Some(cs) => Listing.CatalogLines(cs)
       case None => [Log.CatalogError])
    case _ => [Log.CatalogError]
  }

  /** Between the operator line at i and the next there is that operator's report. */
  predicate Reported(report: string -> seq<Log.Line>, lines: seq<Log.Line>, i: nat)
    requires i < |lines|
  {
    lines[i].Operator? ==> lines[i + 1..NextOperator(lines, i + 1)] == report(lines[i].name)
  }

  predicate AllReported(report: string -> seq<Log.Line>, lines: seq<Log.Line>, from: nat) {
    forall i :: from <= i < |lines| ==> Reported(report, lines, i)
  }

  /** The report on each operator's catalog in the configs directory. */
  function Reports(fs: Files, configs: Path): string -> seq<Log.Line> {
    name => Report(NodeAt(fs, configs + Resolve(name) + ["catalog.json"]))
  }

  lemma {:induction false} NamesQuiet(lines: seq<Log.Line>)
    ensures OperatorNames(lines) == [] ==> Quiet(lines)
    decreases |lines|
  {
    if lines != [] {
      NamesQuiet(lines[1..]);
    }
  }

  lemma ReportQuiet(node: Option<Node>)
    ensures Quiet(Report(node))
  {
    match node
    case Some(File(data)) =>
      if Listing.ReadConfigs(data).Some? {
        CatalogNamesNone(Listing.ReadConfigs(data).value);
        NamesQuiet(Listing.CatalogLines(Listing.ReadConfigs(data).value));
      }
    case _ =>
  }

  lemma OperatorReport(fs: Files, dir: string, name: string)
    ensures OperatorLines(fs, dir, name) ==
            [Log.Operator(name)] + Report(NodeAt(fs, Resolve(dir) + Resolve(name) + ["catalog.json"]))
  {
    CatalogPath(dir, name, "catalog.json");
    var p := Resolve(dir) + Resolve(name) + ["catalog.json"];
    assert OperatorLines(fs, dir, name) == NamedLines(name, DataTrace(ReadFile(fs, p)));
  }

  lemma CatalogPath(dir: string, name: string, file: string)
    requires IsComponent(file)
    ensures Resolve(dir + "/" + name + "/" + file) == Resolve(dir) + Resolve(name) + [file]
  {
    ResolveSlash(dir + "/" + name, file);
    ResolveSlash(dir, name);
    ResolveComponent(file);
  }

  lemma {:induction false} NextAfter(a: seq<Log.Line>, b: seq<Log.Line>, i: nat)
    requires i <= |b|
    ensures NextOperator(a + b, |a| + i) == |a| + NextOperator(b, i)
    decreases |b| - i
  {
    if i < |b| && !b[i].Operator? {
      NextAfter(a, b, i + 1);
    }
  }

  lemma BodyReported(report: string -> seq<Log.Line>, head: seq<Log.Line>, body: seq<Log.Line>, k: nat)
    requires k < |body| && Reported(report, body, k)
    ensures Reported(report, head + body, |head| + k)
  {
    assert (head + body)[|head| + k] == body[k];
    NextAfter(head, body, k + 1);
    SliceAfter(head, body, k + 1, NextOperator(body, k + 1));
  }

  lemma SliceAfter(a: seq<Log.Line>, b: seq<Log.Line>, i: nat, j: nat)
    requires i <= j <= |b|
    ensures (a + b)[|a| + i..|a| + j] == b[i..j]
  {
  }

  lemma AllBodyReported(report: string -> seq<Log.Line>, head: seq<Log.Line>, body: seq<Log.Line>)
    requires AllReported(report, body, 0)
    ensures AllReported(report, head + body, |head|)
  {
    forall i | |head| <= i < |head + body| ensures Reported(report, head + body, i) {
      BodyReported(report, head, body, i - |head|);
    }
  }

  /** One operator's lines before the others'. */
  lemma FirstReported(report: string -> seq<Log.Line>, name: string, rest: seq<Log.Line>)
    requires StartsWithOperator(rest) && Quiet(report(name)) && AllReported(report, rest, 0)
    ensures AllReported(report, [Log.Operator(name)] + report(name) + rest, 0)
  {
    var first := [Log.Operator(name)] + report(name);
    var lines := first + rest;
    AllBodyReported(report, first, rest);
    forall i | 0 <= i < |first| ensures Reported(report, lines, i) {
      if i == 0 {
        assert forall k :: 1 <= k < |first| ==> lines[k] == report(name)[k - 1];
        assert rest != [] ==> lines[|first|] == rest[0];
        assert NextOperator(lines, 1) == |first|;
        assert lines[1..|first|] == report(name);
      } else {
        assert lines[i] == report(name)[i - 1];
      }
    }
  }

  lemma {:induction false} OperatorsReported(fs: Files, dir: string, names: seq<string>)
    ensures var lines := AllOperatorLines(fs, dir, names);
            StartsWithOperator(lines) && AllReported(Reports(fs, Resolve(dir)), lines, 0)
    decreases |names|
  {
    if names != [] {
      var report, rest := Reports(fs, Resolve(dir)), AllOperatorLines(fs, dir, names[1..]);
      OperatorsReported(fs, dir, names[1..]);
      assert OperatorLines(fs, dir, names[0]) == [Log.Operator(names[0])] + report(names[0]) by {
        OperatorReport(fs, dir, names[0]);
      }
      ReportQuiet(NodeAt(fs, Resolve(dir) + Resolve(names[0]) + ["catalog.json"]));
      FirstReported(report, names[0], rest);
    }
  }

  /**
    The listing of a successful run: two head lines, and then for each operator
    of the configs directory its line, followed up to the next operator's line
    by the lines of its catalog, or by exactly one error line if there is no
    such file or it cannot be read.
  */
  lemma RunListing(fs: Files, o: Options, pull: Pull, codec: Codec)
    requires ForOperators(o) && Collect(fs, o, pull, codec).outcome == Done
    ensures var r := Collect(fs, o, pull, codec);
            var lines := r.listing;
            && |lines| >= 2 && lines[..2] == [Log.Listing(o.reference), Log.ListingDir(ConfigsDir(o))]
            && (|lines| > 2 ==> lines[2].Operator?)
            && forall i :: 2 <= i < |lines| && lines[i].Operator? ==>
                 lines[i + 1..NextOperator(lines, i + 1)] == Reports(r.files, Cache(o) + ["configs"])(lines[i].name)
  {
    var r := Collect(fs, o, pull, codec);
    var files, lines, configs := r.files, r.listing, Cache(o) + ["configs"];
    assert Show(files, o) == Some(lines) by { DoneShows(fs, o, pull, codec); }
    assert Resolve(ConfigsDir(o)) == configs by { ConfigsBelowCache(o); }
    ShownReported(files, o);
    EachReported(Reports(files, configs), lines);
  }

  lemma EachReported(report: string -> seq<Log.Line>, lines: seq<Log.Line>)
    requires AllReported(report, lines, 2)
    ensures forall i :: 2 <= i < |lines| && lines[i].Operator? ==>
              lines[i + 1..NextOperator(lines, i + 1)] == report(lines[i].name)
  {
    forall i | 2 <= i < |lines| && lines[i].Operator?
      ensures lines[i + 1..NextOperator(lines, i + 1)] == report(lines[i].name)
    {
      assert Reported(report, lines, i);
    }
  }

  function Head(o: Options): seq<Log.Line> {
    [Log.Listing(o.reference), Log.ListingDir(ConfigsDir(o))]
  }

  lemma ShownReported(fs: Files, o: Options)
    requires Show(fs, o).Some?
    ensures var lines := Show(fs, o).value;
            && |lines| >= 2 && lines[..2] == Head(o) && (|lines| > 2 ==> lines[2].Operator?)
            && AllReported(Reports(fs, Resolve(ConfigsDir(o))), lines, 2)
  {
    var names := ReadDir(fs, Resolve(ConfigsDir(o))).value;
    var body := AllOperatorLines(fs, ConfigsDir(o), names);
    OperatorsReported(fs, ConfigsDir(o), names);
    AllBodyReported(Reports(fs, Resolve(ConfigsDir(o))), Head(o), body);
    assert Show(fs, o).value == Head(o) + body;
  }

  // ---------- the listing of a cold run, by entries ----------

  /** The tree after a successful run that found no cache is what the extraction of its image leaves. */
  lemma DoneExtract(fs: Files, o: Options, pull: Pull, codec: Codec)
    requires WellFormed(fs) && WellFormed(pull.content) && ForOperators(o) && Cold(fs, o)
    requires Collect(fs, o, pull, codec).outcome == Done
    ensures var copied, tag := Pulled(fs, o, pull), LabelOf(fs, o, pull, codec);
            var e := Extract(copied, codec.gunzip, BlobsDir(o), CacheDir(o), tag, LayersOf(fs, o, pull, codec));
            && WellFormed(copied) && Cold(copied, o) && Missing(copied, GuardPath(o, tag))
            && e.Ok() && Collect(fs, o, pull, codec).files == e.files
  {
    ColdListsExactly(fs, o, pull, codec);
    CopyKeepsCold(fs, o, pull);
    GuardAfterCopy(fs, o, pull, LabelOf(fs, o, pull, codec));
    FetchReached(fs, o, pull, codec);
    ColdRun(fs, o, pull, codec);
    ListFacts(Fetch(fs, o, pull, codec), o);
  }

  /**
    A successful run that finds no cache lists a name exactly if some selected
    entry of the layers puts something there, and the catalog it reads for the
    name is the data of the last selected file entry for it, if there is one.
  */
  lemma ColdByEntries(fs: Files, o: Options, pull: Pull, codec: Codec, name: string)
    requires WellFormed(fs) && WellFormed(pull.content) && ForOperators(o) && Cold(fs, o)
    requires Collect(fs, o, pull, codec).outcome == Done
    ensures var r, base, x := Collect(fs, o, pull, codec), CacheDir(o), TrimSlashes(LabelOf(fs, o, pull, codec));
            var es := AllEntries(Pulled(fs, o, pull), codec.gunzip, BlobsDir(o), LayersOf(fs, o, pull, codec));
            var configs := Cache(o) + ["configs"];
            var dir, file := configs + [name], configs + Resolve(name) + ["catalog.json"];
            && (name in OperatorNames(r.listing) <==> !NoFileFor(es, base, x, dir) || AnyDirFor(es, base, x, dir))
            && (forall k :: LastFileFor(es, k, base, x, file) ==> NodeAt(r.files, file) == Some(File(es[k].kind.data)))
            && (NoFileFor(es, base, x, file) ==> !IsFile(r.files, file))
  {
    var r, copied, configs := Collect(fs, o, pull, codec), Pulled(fs, o, pull), Cache(o) + ["configs"];
    DoneExtract(fs, o, pull, codec);
    BlobsApart(o);
    assert name in OperatorNames(r.listing) <==> NodeAt(r.files, configs + [name]).Some? by {
      ListingNames(fs, o, pull, codec);
    }
    ColdNode(copied, o, codec, LabelOf(fs, o, pull, codec), LayersOf(fs, o, pull, codec), configs + [name]);
    ColdNode(copied, o, codec, LabelOf(fs, o, pull, codec), LayersOf(fs, o, pull, codec), configs + Resolve(name) + ["catalog.json"]);
  }

  /** What an extraction into a missing cache leaves at a path in it. */
  lemma ColdNode(fs: Files, o: Options, codec: Codec, tag: string, layers: seq<string>, p: Path)
    requires WellFormed(fs) && Cold(fs, o) && Missing(fs, GuardPath(o, tag)) && OnPath(Cache(o), p)
    requires Extract(fs, codec.gunzip, BlobsDir(o), CacheDir(o), tag, layers).Ok()
    ensures var es, base, x := AllEntries(fs, codec.gunzip, BlobsDir(o), layers), CacheDir(o), TrimSlashes(tag);
            var after := NodeAt(Extract(fs, codec.gunzip, BlobsDir(o), CacheDir(o), tag, layers).files, p);
            && (after.Some? <==> !NoFileFor(es, base, x, p) || AnyDirFor(es, base, x, p))
            && (forall k :: LastFileFor(es, k, base, x, p) ==> after == Some(File(es[k].kind.data)))
            && (NoFileFor(es, base, x, p) ==> after != None ==> after == Some(Dir))
  {
    var es, base, x := AllEntries(fs, codec.gunzip, BlobsDir(o), layers), CacheDir(o), TrimSlashes(tag);
    BlobsApart(o);
    NothingBelowMissing(fs, Cache(o), p);
    EntriesWin(fs, codec.gunzip, BlobsDir(o), base, tag, layers, p);
    if !NoFileFor(es, base, x, p) {
      var k := LastFileExists(es, base, x, p);
    }
  }
}
