/**
  The caches of all references under one working directory, over any sequence
  of runs: when a cache comes to exist, that it is then never pulled again and
  never changes, when a failure is retried, and which references shadow others.
*/
module CacheLaws {
  import opened Wrappers
  import opened Text
  import opened FileTree
  import opened Extraction
  import opened ExtractionLaws
  import opened LayerLaws
  import opened Collecting
  import opened CollectLaws

  // ---------- a run is a copy and then some effective actions ----------

  /** The tree after the pull of a run, if it pulls. */
  function Pulled(fs: Files, o: Options, pull: Pull): Files {
    if ForOperators(o) && Cold(fs, o) && MakeAll(fs, Copy(o)).Some? then Copied(MakeAll(fs, Copy(o)).value, o, pull)
    else fs
  }

  /** What the layers ask for. */
  function ImagePlan(fs: Files, o: Options, codec: Codec, tag: string, layers: seq<string>): seq<Action> {
    Plan(fs, codec.gunzip, BlobsDir(o), CacheDir(o), TrimSlashes(tag), layers)
  }

  function ImageWork(fs: Files, o: Options, codec: Codec): seq<Action> {
    match Describe(fs, o, codec)
    case Unusable(_, _, _) => []
    case Usable(tag, layers, _) =>
      if Missing(fs, GuardPath(o, tag)) then Effective(fs, ImagePlan(fs, o, codec, tag, layers)) else []
  }

  /** The actions of a run that took effect on the cache directory. */
  function Work(fs: Files, o: Options, pull: Pull, codec: Codec): seq<Action> {
    if ForOperators(o) && Cold(fs, o) && MakeAll(fs, Copy(o)).Some? && pull.ok then
      ImageWork(Pulled(fs, o, pull), o, codec)
    else []
  }

  lemma ImageIsWork(fs: Files, o: Options, codec: Codec)
    requires WellFormed(fs)
    ensures Run(fs, ImageWork(fs, o, codec)) == Result(FetchImage(fs, o, codec).files, None)
    ensures WritesBelow(ImageWork(fs, o, codec), Cache(o))
  {
    Directories(o);
    var d := Describe(fs, o, codec);
    if d.Usable? && Missing(fs, GuardPath(o, d.tag)) {
      var plan := ImagePlan(fs, o, codec, d.tag, d.layers);
      BlobsApart(o);
      LayersArePlan(fs, codec.gunzip, BlobsDir(o), CacheDir(o), TrimSlashes(d.tag), d.layers);
      EffectiveRun(fs, plan);
      PlanWritesBelow(fs, codec.gunzip, BlobsDir(o), CacheDir(o), TrimSlashes(d.tag), d.layers);
      EffectiveUnder(fs, plan, Cache(o));
    }
  }

  /** Any run, whatever its outcome, leaves what its effective actions make of the tree after the pull. */
  lemma RunIsWork(fs: Files, o: Options, pull: Pull, codec: Codec)
    requires WellFormed(fs) && WellFormed(pull.content)
    ensures WellFormed(Pulled(fs, o, pull))
    ensures Run(Pulled(fs, o, pull), Work(fs, o, pull, codec)) == Result(Collect(fs, o, pull, codec).files, None)
    ensures WritesBelow(Work(fs, o, pull, codec), Cache(o))
  {
    var r := Collect(fs, o, pull, codec);
    if ForOperators(o) && Cold(fs, o) {
      ColdFiles(fs, o, pull, codec);
      if MakeAll(fs, Copy(o)).Some? {
        CopyFrame(fs, o, pull, []);
        ImageIsWork(Pulled(fs, o, pull), o, codec);
      }
    } else if ForOperators(o) {
      WarmRun(fs, o, pull, codec);
    }
  }

  lemma ColdFiles(fs: Files, o: Options, pull: Pull, codec: Codec)
    requires ForOperators(o) && Cold(fs, o)
    ensures Collect(fs, o, pull, codec).files ==
            if MakeAll(fs, Copy(o)).Some? && pull.ok then FetchImage(Pulled(fs, o, pull), o, codec).files
            else Pulled(fs, o, pull)
  {
    Directories(o);
    ColdRun(fs, o, pull, codec);
    ListFacts(Fetch(fs, o, pull, codec), o);
  }

  // ---------- when a cache comes to exist ----------

  /** The runs share a working directory. */
  predicate SameDir(o: Options, requests: seq<Request>) {
    forall i :: 0 <= i < |requests| ==> DirOf(requests[i].o) == DirOf(o)
  }

  /** After any run a cache is missing exactly if it was missing and the run's actions avoid it. */
  lemma ColdAfterRun(fs: Files, o: Options, other: Options, pull: Pull, codec: Codec)
    requires WellFormed(fs) && WellFormed(pull.content) && DirOf(other) == DirOf(o)
    ensures Cold(Collect(fs, other, pull, codec).files, o) <==>
            Cold(fs, o) && Avoids(Work(fs, other, pull, codec), Cache(o))
  {
    RunIsWork(fs, other, pull, codec);
    MissingAfter(Pulled(fs, other, pull), Work(fs, other, pull, codec), Cache(o));
    assert Cache(o) == Held(other, KeyPath(o));
    if MakeAll(fs, Copy(other)).Some? {
      CopyKeepsMissing(fs, other, pull, KeyPath(o));
    }
  }

  /** The effective actions of each run. */
  function Works(fs: Files, requests: seq<Request>, codec: Codec): (works: seq<seq<Action>>)
    ensures |works| == |requests|
    decreases |requests|
  {
    if requests == [] then []
    else
      [Work(fs, requests[0].o, requests[0].pull, codec)]
      + Works(Collect(fs, requests[0].o, requests[0].pull, codec).files, requests[1..], codec)
  }

  /** The first n runs do nothing that makes the path exist. */
  predicate FirstAvoid(works: seq<seq<Action>>, n: nat, p: Path)
    requires n <= |works|
  {
    forall i :: 0 <= i < n ==> Avoids(works[i], p)
  }

  /** A run for operators whose cache directory is the one of `o`. */
  predicate SharesCache(o: Options, other: Options) {
    ForOperators(other) && DirOf(other) == DirOf(o) && KeyPath(other) == KeyPath(o)
  }

  /** The run called Mirror.Run, or could not even make the directory for it. */
  predicate Tried(r: RunResult) {
    r.pulled || r.outcome == Stopped(MakingCopyDir, false)
  }

  lemma TriedExactly(fs: Files, o: Options, other: Options, pull: Pull, codec: Codec)
    requires SharesCache(o, other)
    ensures Tried(Collect(fs, other, pull, codec)) <==> Cold(fs, o)
  {
    if Cold(fs, o) {
      ColdPulls(fs, other, pull, codec);
    } else {
      Directories(other);
      ListFacts(RunResult(fs, Done, false, [], []), other);
    }
  }

  /** The first step of a sequence of runs. */
  lemma FirstStep(fs: Files, o: Options, requests: seq<Request>, codec: Codec, n: nat)
    requires WellFormed(fs) && LegalPulls(requests) && SameDir(o, requests) && n < |requests|
    ensures var r := Collect(fs, requests[0].o, requests[0].pull, codec);
            var works, later := Works(fs, requests, codec), Works(r.files, requests[1..], codec);
            && WellFormed(r.files)
            && ((Cold(r.files, o) && FirstAvoid(later, n, Cache(o))) ==
                (Cold(fs, o) && FirstAvoid(works, n + 1, Cache(o))))
  {
    var first := requests[0];
    var r := Collect(fs, first.o, first.pull, codec);
    CollectFrame(fs, first.o, first.pull, codec, []);
    ColdAfterRun(fs, o, first.o, first.pull, codec);
    OneMoreAvoids(Works(fs, requests, codec), Works(r.files, requests[1..], codec), n, Cache(o));
  }

  /** The result of a later run is the result of the run one place earlier after the first. */
  lemma LaterRun(fs: Files, o: Options, requests: seq<Request>, codec: Codec, i: nat)
    requires LegalPulls(requests) && SameDir(o, requests) && 0 < i < |requests|
    ensures LegalPulls(requests[1..]) && SameDir(o, requests[1..]) && requests[1..][i - 1] == requests[i]
    ensures RunAll(fs, requests, codec)[i] ==
            RunAll(Collect(fs, requests[0].o, requests[0].pull, codec).files, requests[1..], codec)[i - 1]
  {
  }

  lemma {:induction false} ColdAfterRuns(fs: Files, o: Options, requests: seq<Request>, codec: Codec)
    requires WellFormed(fs) && LegalPulls(requests) && SameDir(o, requests)
    ensures Cold(After(fs, requests, codec), o) <==>
            Cold(fs, o) && FirstAvoid(Works(fs, requests, codec), |requests|, Cache(o))
    decreases |requests|
  {
    if requests != [] {
      FirstStep(fs, o, requests, codec, |requests| - 1);
      ColdAfterRuns(Collect(fs, requests[0].o, requests[0].pull, codec).files, o, requests[1..], codec);
    }
  }

  lemma {:induction false} TriedAfterRuns(fs: Files, o: Options, requests: seq<Request>, codec: Codec, i: nat)
    requires WellFormed(fs) && LegalPulls(requests) && SameDir(o, requests)
    requires i < |requests| && SharesCache(o, requests[i].o)
    ensures Tried(RunAll(fs, requests, codec)[i]) <==>
            Cold(fs, o) && FirstAvoid(Works(fs, requests, codec), i, Cache(o))
    decreases |requests|
  {
    var first := requests[0];
    if i == 0 {
      TriedExactly(fs, o, first.o, first.pull, codec);
    } else {
      var next, rest := Collect(fs, first.o, first.pull, codec).files, requests[1..];
      var later := Works(next, rest, codec);
      assert (Cold(next, o) && FirstAvoid(later, i - 1, Cache(o))) ==
             (Cold(fs, o) && FirstAvoid(Works(fs, requests, codec), i, Cache(o))) by {
        FirstStep(fs, o, requests, codec, i - 1);
      }
      assert Tried(RunAll(fs, requests, codec)[i]) == (Cold(next, o) && FirstAvoid(later, i - 1, Cache(o))) by {
        LaterRun(fs, o, requests, codec, i);
        FirstStep(fs, o, requests, codec, i - 1);
        TriedAfterRuns(next, o, rest, codec, i - 1);
      }
    }
  }

  /**
    Over any runs in one working directory: a cache is missing in the end
    exactly if it was missing in the beginning and no run did anything that
    makes it exist; and a run that uses this cache tries to pull exactly if
    that holds of all the runs before it.
  */
  lemma RetriedExactly(fs: Files, o: Options, requests: seq<Request>, codec: Codec)
    requires WellFormed(fs) && LegalPulls(requests) && SameDir(o, requests)
    ensures Cold(After(fs, requests, codec), o) <==>
            Cold(fs, o) && FirstAvoid(Works(fs, requests, codec), |requests|, Cache(o))
    ensures forall i :: 0 <= i < |requests| && SharesCache(o, requests[i].o) ==>
              (Tried(RunAll(fs, requests, codec)[i]) <==>
               Cold(fs, o) && FirstAvoid(Works(fs, requests, codec), i, Cache(o)))
  {
    ColdAfterRuns(fs, o, requests, codec);
    forall i | 0 <= i < |requests| && SharesCache(o, requests[i].o)
      ensures Tried(RunAll(fs, requests, codec)[i]) <==>
              Cold(fs, o) && FirstAvoid(Works(fs, requests, codec), i, Cache(o))
    {
      TriedAfterRuns(fs, o, requests, codec, i);
    }
  }

  lemma OneMoreAvoids(works: seq<seq<Action>>, later: seq<seq<Action>>, n: nat, p: Path)
    requires |works| == |later| + 1 && works[1..] == later && n <= |later|
    ensures FirstAvoid(works, n + 1, p) <==> Avoids(works[0], p) && FirstAvoid(later, n, p)
  {
    if FirstAvoid(works, n + 1, p) {
      forall i | 0 <= i < n ensures Avoids(later[i], p) {
        assert later[i] == works[i + 1];
      }
    }
    if Avoids(works[0], p) && FirstAvoid(later, n, p) {
      forall i | 0 <= i < n + 1 ensures Avoids(works[i], p) {
        if i > 0 {
          assert works[i] == later[i - 1];
        }
      }
    }
  }

  // ---------- when a run is retried ----------

  /** The extraction has nothing to do: it is skipped, or its plan does not begin with a directory. */
  predicate Idle(fs: Files, o: Options, codec: Codec) {
    var d := Describe(fs, o, codec);
    d.Usable? &&
    (!Missing(fs, GuardPath(o, d.tag)) ||
     var plan := ImagePlan(fs, o, codec, d.tag, d.layers); plan == [] || !plan[0].Mkdir?)
  }

  /**
    After a run that finds no cache, there is none again if and only if the run
    stopped before the extraction, or the extraction was skipped, asked for
    nothing, or did not begin with a directory.
  */
  lemma ColdAgainExactly(fs: Files, o: Options, pull: Pull, codec: Codec)
    requires WellFormed(fs) && WellFormed(pull.content) && ForOperators(o) && Cold(fs, o)
    ensures var r := Collect(fs, o, pull, codec);
            && (Cold(r.files, o) <==> Work(fs, o, pull, codec) == [])
            && (Cold(r.files, o) <==> StoppedEarly(r.outcome) || Idle(Pulled(fs, o, pull), o, codec))
  {
    ColdAfterRun(fs, o, o, pull, codec);
    StopsEarly(fs, o, pull, codec);
    if MakeAll(fs, Copy(o)).Some? {
      CopyKeepsCold(fs, o, pull);
      WorkOfImage(Pulled(fs, o, pull), o, codec);
    }
  }

  /** A run that finds no cache stops early exactly if it cannot copy or cannot read the descriptors. */
  lemma StopsEarly(fs: Files, o: Options, pull: Pull, codec: Codec)
    requires ForOperators(o) && Cold(fs, o)
    ensures StoppedEarly(Collect(fs, o, pull, codec).outcome) <==>
            MakeAll(fs, Copy(o)).None? || !pull.ok || Describe(Pulled(fs, o, pull), o, codec).Unusable?
  {
    var f := Fetch(fs, o, pull, codec);
    ColdRun(fs, o, pull, codec);
    ListFacts(f, o);
    Directories(o);
    if MakeAll(fs, Copy(o)).Some? && pull.ok {
      ImageStopsEarly(Pulled(fs, o, pull), o, codec);
      assert f.outcome == FetchImage(Pulled(fs, o, pull), o, codec).outcome;
    }
  }

  lemma ImageStopsEarly(fs: Files, o: Options, codec: Codec)
    ensures StoppedEarly(FetchImage(fs, o, codec).outcome) <==> Describe(fs, o, codec).Unusable?
  {
    DescribedStages(fs, o, codec);
  }

  lemma DescribedStages(fs: Files, o: Options, codec: Codec)
    ensures var d := Describe(fs, o, codec);
            d.Unusable? ==> !d.stage.Extracting? && !d.stage.ListingConfigs?
  {
  }

  lemma WorkOfImage(fs: Files, o: Options, codec: Codec)
    requires WellFormed(fs) && Cold(fs, o)
    ensures var work, d := ImageWork(fs, o, codec), Describe(fs, o, codec);
            && (Avoids(work, Cache(o)) <==> work == [])
            && (work == [] <==> d.Unusable? || Idle(fs, o, codec))
  {
    var d := Describe(fs, o, codec);
    if d.Usable? && Missing(fs, GuardPath(o, d.tag)) {
      Directories(o);
      PlanWritesBelow(fs, codec.gunzip, BlobsDir(o), CacheDir(o), TrimSlashes(d.tag), d.layers);
      FirstAction(fs, ImagePlan(fs, o, codec, d.tag, d.layers), Cache(o));
    }
  }

  /** A run that did not pull, or stopped early, has done nothing to any cache. */
  lemma EarlyWork(fs: Files, o: Options, pull: Pull, codec: Codec)
    requires var r := Collect(fs, o, pull, codec); !r.pulled || StoppedEarly(r.outcome)
    ensures Work(fs, o, pull, codec) == []
  {
    if ForOperators(o) && Cold(fs, o) {
      StopsEarly(fs, o, pull, codec);
      ColdRun(fs, o, pull, codec);
      FetchFacts(fs, o, pull, codec);
      ListFacts(Fetch(fs, o, pull, codec), o);
    }
  }

  /** What lies at or below one of two unrelated paths does not make the other exist. */
  lemma UnrelatedAvoid(acts: seq<Action>, base: Path, p: Path)
    requires AllUnder(acts, base) && Unrelated(base, p)
    ensures Avoids(acts, p)
  {
    forall i | 0 <= i < |acts| && !acts[i].Halt?
      ensures !OnPath(p, acts[i].p) && !OnPath(acts[i].p, p)
    {
      OnOneLine(base, p, acts[i].p);
      OnPathTransitive(base, acts[i].p, p);
    }
  }

  lemma UnrelatedWork(fs: Files, o: Options, other: Options, pull: Pull, codec: Codec)
    requires WellFormed(fs) && WellFormed(pull.content) && Elsewhere(o, other)
    ensures Avoids(Work(fs, other, pull, codec), Cache(o))
  {
    RunIsWork(fs, other, pull, codec);
    ElsewherePaths(o, other);
    UnrelatedAvoid(Work(fs, other, pull, codec), Cache(other), Cache(o));
  }

  /** Every run whose key is related to this one's pulled nothing or stopped before the extraction. */
  predicate RelatedFail(o: Options, requests: seq<Request>, results: seq<RunResult>)
    requires |results| == |requests|
  {
    forall i :: 0 <= i < |requests| && !Unrelated(KeyPath(o), KeyPath(requests[i].o)) ==>
                  !results[i].pulled || StoppedEarly(results[i].outcome)
  }

  lemma OneFailureAvoids(fs: Files, o: Options, first: Request, codec: Codec)
    requires WellFormed(fs) && WellFormed(first.pull.content) && DirOf(first.o) == DirOf(o)
    requires var r := Collect(fs, first.o, first.pull, codec);
             Unrelated(KeyPath(o), KeyPath(first.o)) || !r.pulled || StoppedEarly(r.outcome)
    ensures Avoids(Work(fs, first.o, first.pull, codec), Cache(o))
  {
    if Unrelated(KeyPath(o), KeyPath(first.o)) {
      UnrelatedWork(fs, o, first.o, first.pull, codec);
    } else {
      EarlyWork(fs, first.o, first.pull, codec);
    }
  }

  lemma RelatedTail(o: Options, requests: seq<Request>, results: seq<RunResult>)
    requires |results| == |requests| > 0 && RelatedFail(o, requests, results)
    ensures RelatedFail(o, requests[1..], results[1..])
    ensures Unrelated(KeyPath(o), KeyPath(requests[0].o)) || !results[0].pulled || StoppedEarly(results[0].outcome)
  {
    assert forall i :: 0 <= i < |requests| - 1 ==> requests[1..][i] == requests[i + 1] && results[1..][i] == results[i + 1];
  }

  lemma {:induction false} FailuresAvoid(fs: Files, o: Options, requests: seq<Request>, codec: Codec)
    requires WellFormed(fs) && LegalPulls(requests) && SameDir(o, requests)
    requires RelatedFail(o, requests, RunAll(fs, requests, codec))
    ensures FirstAvoid(Works(fs, requests, codec), |requests|, Cache(o))
    decreases |requests|
  {
    if requests != [] {
      var first, rest := requests[0], requests[1..];
      var r := Collect(fs, first.o, first.pull, codec);
      var results := RunAll(fs, requests, codec);
      assert results[0] == r && results[1..] == RunAll(r.files, rest, codec);
      RelatedTail(o, requests, results);
      OneFailureAvoids(fs, o, first, codec);
      assert FirstAvoid(Works(r.files, rest, codec), |rest|, Cache(o)) by {
        CollectFrame(fs, first.o, first.pull, codec, []);
        FailuresAvoid(r.files, o, rest, codec);
      }
      OneMoreAvoids(Works(fs, requests, codec), Works(r.files, rest, codec), |rest|, Cache(o));
    }
  }

  /**
    As long as the runs whose keys are related to this one's fail before the
    extraction, the cache stays missing, whatever is run for other keys, and
    every run for this key tries again.
  */
  lemma FailuresAreRetried(fs: Files, o: Options, requests: seq<Request>, codec: Codec)
    requires WellFormed(fs) && LegalPulls(requests) && SameDir(o, requests) && Cold(fs, o)
    requires RelatedFail(o, requests, RunAll(fs, requests, codec))
    ensures Cold(After(fs, requests, codec), o)
    ensures forall i :: 0 <= i < |requests| && SharesCache(o, requests[i].o) ==> Tried(RunAll(fs, requests, codec)[i])
  {
    FailuresAvoid(fs, o, requests, codec);
    RetriedExactly(fs, o, requests, codec);
  }

  // ---------- a cache that exists ----------

  /** The other key's directory lies strictly inside this one's. */
  predicate Nested(o: Options, other: Options) {
    OnPath(KeyPath(o), KeyPath(other)) && KeyPath(o) != KeyPath(other)
  }

  lemma CachesNest(o: Options, other: Options)
    requires DirOf(other) == DirOf(o)
    ensures OnPath(Cache(o), Cache(other)) <==> OnPath(KeyPath(o), KeyPath(other))
  {
    OnPathShift(DirOf(o) + ["hold-operators"], KeyPath(o), KeyPath(other));
  }

  /** Where a cache exists, so does every cache it lies in. */
  lemma WarmAbove(fs: Files, o: Options, other: Options)
    requires WellFormed(fs) && DirOf(other) == DirOf(o) && OnPath(KeyPath(other), KeyPath(o))
    ensures !Cold(fs, o) ==> !Cold(fs, other)
  {
    CachesNest(other, o);
    if Cold(fs, other) {
      MissingBelow(fs, Cache(other), Cache(o));
    }
  }

  /** A run for a nested key leaves alone what is neither in its own cache nor on the way to it. */
  predicate Spares(o: Options, other: Options, q: Path) {
    Nested(o, other) ==> Unrelated(Cache(other), q)
  }

  predicate AllSpare(o: Options, requests: seq<Request>, q: Path) {
    forall i :: 0 <= i < |requests| ==> Spares(o, requests[i].o, q)
  }

  lemma OneRunSpares(fs: Files, o: Options, first: Request, codec: Codec, q: Path)
    requires WellFormed(fs) && WellFormed(first.pull.content) && DirOf(first.o) == DirOf(o)
    requires !Cold(fs, o) && OnPath(Cache(o), q) && Spares(o, first.o, q)
    ensures NodeAt(Collect(fs, first.o, first.pull, codec).files, q) == NodeAt(fs, q)
  {
    var other := first.o;
    if OnPath(KeyPath(other), KeyPath(o)) {
      AboveRun(fs, o, first, codec);
    } else if OnPath(KeyPath(o), KeyPath(other)) {
      CollectFrame(fs, other, first.pull, codec, q);
      CopyElsewhere(o, other, q);
    } else {
      RunElsewhere(fs, o, other, first.pull, codec);
    }
  }

  /** A copy directory has nothing to do with what is in a cache. */
  lemma CopyElsewhere(o: Options, other: Options, q: Path)
    requires DirOf(other) == DirOf(o) && OnPath(Cache(o), q)
    ensures Unrelated(Copy(other), q)
  {
    var rest := q[|DirOf(o)| + 1..];
    assert q == DirOf(o) + ["hold-operators"] + rest by {
      assert q[..|DirOf(o)| + 1] == Cache(o)[..|DirOf(o)| + 1] == DirOf(o) + ["hold-operators"];
    }
    Fork(DirOf(o), "operator-images", "hold-operators", KeyPath(other), rest);
    Fork(DirOf(o), "hold-operators", "operator-images", rest, KeyPath(other));
  }

  lemma AboveRun(fs: Files, o: Options, first: Request, codec: Codec)
    requires WellFormed(fs) && DirOf(first.o) == DirOf(o) && !Cold(fs, o)
    requires OnPath(KeyPath(first.o), KeyPath(o))
    ensures var r := Collect(fs, first.o, first.pull, codec);
            !r.pulled && r.files == fs
  {
    WarmAbove(fs, o, first.o);
    if ForOperators(first.o) {
      WarmRun(fs, first.o, first.pull, codec);
    }
  }

  lemma StaysWarm(fs: Files, o: Options, first: Request, codec: Codec)
    requires WellFormed(fs) && WellFormed(first.pull.content) && DirOf(first.o) == DirOf(o) && !Cold(fs, o)
    ensures var r := Collect(fs, first.o, first.pull, codec);
            WellFormed(r.files) && !Cold(r.files, o)
  {
    CollectFrame(fs, first.o, first.pull, codec, []);
    ColdAfterRun(fs, o, first.o, first.pull, codec);
  }

  lemma {:induction false} NoMorePulls(fs: Files, o: Options, requests: seq<Request>, codec: Codec, i: nat)
    requires WellFormed(fs) && LegalPulls(requests) && SameDir(o, requests) && !Cold(fs, o)
    requires i < |requests| && OnPath(KeyPath(requests[i].o), KeyPath(o))
    ensures !RunAll(fs, requests, codec)[i].pulled
    decreases |requests|
  {
    var first := requests[0];
    if i == 0 {
      AboveRun(fs, o, first, codec);
    } else {
      LaterRun(fs, o, requests, codec, i);
      StaysWarm(fs, o, first, codec);
      NoMorePulls(Collect(fs, first.o, first.pull, codec).files, o, requests[1..], codec, i - 1);
    }
  }

  lemma {:induction false} ContentsStay(fs: Files, o: Options, requests: seq<Request>, codec: Codec, q: Path)
    requires WellFormed(fs) && LegalPulls(requests) && SameDir(o, requests) && !Cold(fs, o)
    requires OnPath(Cache(o), q) && AllSpare(o, requests, q)
    ensures NodeAt(After(fs, requests, codec), q) == NodeAt(fs, q)
    decreases |requests|
  {
    if requests != [] {
      var first, rest := requests[0], requests[1..];
      StaysWarm(fs, o, first, codec);
      assert AllSpare(o, rest, q);
      OneRunSpares(fs, o, first, codec, q);
      ContentsStay(Collect(fs, first.o, first.pull, codec).files, o, rest, codec, q);
    }
  }

  /**
    Once a cache exists it never goes missing again, through any runs in the
    working directory and whatever fails.  No run for its key, or for a key
    that its directory lies in, pulls any more.  And nothing in it changes
    except in the caches of the keys nested in it.
  */
  lemma CacheIsFrozen(fs: Files, o: Options, requests: seq<Request>, codec: Codec)
    requires WellFormed(fs) && LegalPulls(requests) && SameDir(o, requests) && !Cold(fs, o)
    ensures !Cold(After(fs, requests, codec), o)
    ensures forall i :: 0 <= i < |requests| && OnPath(KeyPath(requests[i].o), KeyPath(o)) ==>
                          !RunAll(fs, requests, codec)[i].pulled
    ensures forall q :: OnPath(Cache(o), q) && AllSpare(o, requests, q) ==>
                          NodeAt(After(fs, requests, codec), q) == NodeAt(fs, q)
  {
    ColdAfterRuns(fs, o, requests, codec);
    forall i | 0 <= i < |requests| && OnPath(KeyPath(requests[i].o), KeyPath(o))
      ensures !RunAll(fs, requests, codec)[i].pulled
    {
      NoMorePulls(fs, o, requests, codec, i);
    }
    forall q | OnPath(Cache(o), q) && AllSpare(o, requests, q)
      ensures NodeAt(After(fs, requests, codec), q) == NodeAt(fs, q)
    {
      ContentsStay(fs, o, requests, codec, q);
    }
  }

  /** The exception is real: a run for a nested key that does anything makes its directory inside this cache. */
  lemma NestedIntrudes(fs: Files, o: Options, other: Options, pull: Pull, codec: Codec)
    requires WellFormed(fs) && WellFormed(pull.content) && DirOf(other) == DirOf(o)
    requires Nested(o, other) && Work(fs, other, pull, codec) != []
    ensures OnPath(Cache(o), Cache(other)) && NodeAt(fs, Cache(other)).None?
    ensures IsDir(Collect(fs, other, pull, codec).files, Cache(other))
  {
    var r, work := Collect(fs, other, pull, codec), Work(fs, other, pull, codec);
    CachesNest(o, other);
    MissingExact(fs, Cache(other));
    RunIsWork(fs, other, pull, codec);
    ColdAgainExactly(fs, other, pull, codec);
    ColdAfterRun(fs, other, other, pull, codec);
    WrittenBelow(Pulled(fs, other, pull), work, Cache(other));
  }

  /** Actions below a target that make it exist make it a directory. */
  lemma WrittenBelow(fs: Files, acts: seq<Action>, base: Path)
    requires WellFormed(fs) && Run(fs, acts).Ok() && WritesBelow(acts, base) && !Avoids(acts, base)
    ensures IsDir(Run(fs, acts).files, base)
  {
    SuccessExact(fs, acts);
    DirAfter(fs, acts, base);
    var i :| 0 <= i < |acts| && (Creates(acts[i], base) || (acts[i].Write? && OnPath(acts[i].p, base)));
    assert acts[i].Write? ==> OnPath(base, acts[i].p);
    assert Creates(acts[i], base);
  }

  // ---------- which references shadow others ----------

  /**
    Whenever the directory of t's cache is there, o is not pulled: this holds
    in all trees exactly if o's key is a beginning of t's, or the same.
  */
  lemma ShadowedExactly(o: Options, t: Options)
    requires DirOf(t) == DirOf(o)
    ensures (forall fs :: WellFormed(fs) && IsDir(fs, Cache(t)) ==> !Cold(fs, o)) <==> OnPath(KeyPath(o), KeyPath(t))
  {
    CachesNest(o, t);
    PresentForced(Cache(o), Cache(t));
  }

  /** A shadowed run pulls nothing, and with equal keys it lists the operators that t's cache holds. */
  lemma ShadowedRun(fs: Files, o: Options, t: Options, pull: Pull, codec: Codec)
    requires WellFormed(fs) && ForOperators(o) && DirOf(t) == DirOf(o)
    requires OnPath(KeyPath(o), KeyPath(t)) && !Cold(fs, t)
    ensures var r := Collect(fs, o, pull, codec);
            && !r.pulled && r.files == fs && r.fetching == []
            && (r.outcome == Done <==> IsDir(fs, Cache(o) + ["configs"]))
            && (r.outcome == Done && KeyPath(t) == KeyPath(o) ==>
                  Show(fs, t).Some? && |r.listing| >= 2 && r.listing[2..] == Show(fs, t).value[2..])
  {
    WarmAbove(fs, t, o);
    WarmRun(fs, o, pull, codec);
    ConfigsBelowCache(o);
    if KeyPath(t) == KeyPath(o) {
      SameOperators(fs, o, t);
    }
  }

  lemma SameOperators(fs: Files, o: Options, t: Options)
    requires Cache(t) == Cache(o)
    ensures Show(fs, o).Some? <==> Show(fs, t).Some?
    ensures Show(fs, o).Some? ==>
              |Show(fs, o).value| >= 2 && |Show(fs, t).value| >= 2 && Show(fs, o).value[2..] == Show(fs, t).value[2..]
  {
    ConfigsBelowCache(o);
    ConfigsBelowCache(t);
    var names := ReadDir(fs, Resolve(ConfigsDir(o)));
    if names.Some? {
      SameOperatorLines(fs, ConfigsDir(o), ConfigsDir(t), names.value);
    }
  }

  lemma {:induction false} SameOperatorLines(fs: Files, dir: string, dir': string, names: seq<string>)
    requires Resolve(dir) == Resolve(dir')
    ensures AllOperatorLines(fs, dir, names) == AllOperatorLines(fs, dir', names)
    decreases |names|
  {
    if names != [] {
      SameFile(dir, dir', names[0], "catalog.json");
      SameOperatorLines(fs, dir, dir', names[1..]);
    }
  }

  lemma SameFile(dir: string, dir': string, name: string, file: string)
    requires Resolve(dir) == Resolve(dir')
    ensures Resolve(dir + "/" + name + "/" + file) == Resolve(dir' + "/" + name + "/" + file)
  {
    ResolveSlash(dir + "/" + name, file);
    ResolveSlash(dir' + "/" + name, file);
    ResolveSlash(dir, name);
    ResolveSlash(dir', name);
  }

  /**
    The registry is not part of the key: after a successful run for a name and
    tag, a run for that name and tag in any other registry pulls nothing and
    lists the first one's operators as its own.
  */
  lemma RegistriesCollide(fs: Files, t: Options, o: Options, pull: Pull, pull': Pull, codec: Codec,
                          prefix: string, prefix': string, name: string, tag: string)
    requires WellFormed(fs) && WellFormed(pull.content) && ForOperators(t) && ForOperators(o) && DirOf(t) == DirOf(o)
    requires IsPart(name) && IsPart(tag)
    requires t.reference == prefix + "/" + (name + ":" + tag) && o.reference == prefix' + "/" + (name + ":" + tag)
    requires Collect(fs, t, pull, codec).outcome == Done
    ensures var first := Collect(fs, t, pull, codec);
            var second := Collect(first.files, o, pull', codec);
            && !second.pulled && second.outcome == Done && second.files == first.files
            && |first.listing| >= 2 && |second.listing| >= 2 && second.listing[2..] == first.listing[2..]
  {
    KeyOfTagged(prefix, name, tag);
    KeyOfTagged(prefix', name, tag);
    var first := Collect(fs, t, pull, codec);
    CollectFrame(fs, t, pull, codec, []);
    DoneIsWarm(fs, t, pull, codec);
    assert OnPath(KeyPath(o), KeyPath(t));
    SameOperators(first.files, o, t);
    ShadowedRun(first.files, o, t, pull', codec);
    WarmRun(first.files, o, pull', codec);
  }

  /** A name without a tag has the directory that the directories of all its tags lie in. */
  lemma UntaggedNests(o: Options, t: Options, prefix: string, name: string, tag: string, prefix': string)
    requires IsPart(name) && IsPart(tag)
    requires o.reference == prefix' + "/" + name && t.reference == prefix + "/" + (name + ":" + tag)
    ensures Nested(o, t)
  {
    KeyOfTagged(prefix, name, tag);
    KeyOfUntagged(prefix', name);
    assert [name] == [name, tag][..1];
  }

  /**
    A reference without a tag is not pulled once some tag of its name is
    cached, whatever the registries.
  */
  lemma UntaggedIsShadowed(fs: Files, o: Options, t: Options, pull: Pull, codec: Codec,
                           prefix: string, name: string, tag: string, prefix': string)
    requires WellFormed(fs) && ForOperators(o) && DirOf(t) == DirOf(o) && IsPart(name) && IsPart(tag)
    requires o.reference == prefix' + "/" + name && t.reference == prefix + "/" + (name + ":" + tag)
    requires !Cold(fs, t)
    ensures var r := Collect(fs, o, pull, codec);
            !r.pulled && r.files == fs
  {
    UntaggedNests(o, t, prefix, name, tag, prefix');
    ShadowedRun(fs, o, t, pull, codec);
  }
}
