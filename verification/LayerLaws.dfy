/**
  The laws of a whole ExtractLayersOCI call: the nested loops over layers and
  entries are one run over a plan that is fixed before the first write, as long
  as the blobs and the target directory lie apart.
*/
module LayerLaws {
  import opened Wrappers
  import opened Text
  import opened FileTree
  import opened Extraction
  import opened ExtractionLaws

  // ---------- what a run cannot touch ----------

  /** Every action's path lies at or below `base`. */
  predicate AllUnder(acts: seq<Action>, base: Path) {
    forall i :: 0 <= i < |acts| ==> acts[i].Halt? || OnPath(base, acts[i].p)
  }

  lemma EntryUnder(base: string, needle: string, e: Entry)
    ensures AllUnder(EntryActions(base, needle, e), Resolve(base))
  {
    ResolveSlash(base, e.name);
  }

  lemma {:induction false} EntriesUnder(base: string, needle: string, es: seq<Entry>)
    ensures AllUnder(EntriesActions(base, needle, es), Resolve(base))
    decreases |es|
  {
    if es != [] {
      EntryUnder(base, needle, es[0]);
      EntriesUnder(base, needle, es[1..]);
    }
  }

  lemma LayerUnder(fs: Files, dec: Decoder, from: string, base: string, needle: string, digest: string)
    ensures AllUnder(LayerActions(fs, dec, from, base, needle, digest), Resolve(base))
  {
    var layer := ReadLayer(fs, dec, from, digest);
    if layer.Readable? && layer.blob.Archive? {
      EntriesUnder(base, needle, layer.blob.entries);
    }
  }

  /**
    Outside the target directory a run changes nothing, except that missing
    ancestors of the target may become directories.
  */
  predicate Spared(before: Files, after: Files, base: Path, q: Path) {
    NodeAt(after, q) == NodeAt(before, q) ||
    (OnPath(q, base) && NodeAt(before, q).None? && NodeAt(after, q) == Some(Dir))
  }

  lemma PerformFrame(fs: Files, a: Action, base: Path, q: Path)
    requires WellFormed(fs)
    requires a.Halt? || OnPath(base, a.p)
    requires !OnPath(base, q)
    ensures Spared(fs, Perform(fs, a).files, base, q)
  {
    match a
    case Mkdir(p) =>
      MakeAllExact(fs, p);
      OnOneLine(q, base, p);
    case Write(p, data, _) =>
      if CanCreate(fs, p) {
        WriteWellFormed(fs, p, data);
      }
    case Halt(_) =>
  }

  lemma {:induction false} RunFrame(fs: Files, acts: seq<Action>, base: Path, q: Path)
    requires WellFormed(fs) && AllUnder(acts, base) && !OnPath(base, q)
    ensures Spared(fs, Run(fs, acts).files, base, q)
    decreases |acts|
  {
    if acts != [] {
      PerformFrame(fs, acts[0], base, q);
      PerformWellFormed(fs, acts[0]);
      if Perform(fs, acts[0]).Ok() {
        RunFrame(Perform(fs, acts[0]).files, acts[1..], base, q);
      }
    }
  }

  lemma {:induction false} RunLayersFrame(fs: Files, dec: Decoder, from: string, base: string, needle: string,
                                          digests: seq<string>, q: Path)
    requires WellFormed(fs) && !OnPath(Resolve(base), q)
    ensures Spared(fs, RunLayers(fs, dec, from, base, needle, digests).files, Resolve(base), q)
    decreases |digests|
  {
    if digests != [] {
      var acts := LayerActions(fs, dec, from, base, needle, digests[0]);
      LayerUnder(fs, dec, from, base, needle, digests[0]);
      RunFrame(fs, acts, Resolve(base), q);
      RunWellFormed(fs, acts);
      if Run(fs, acts).Ok() {
        RunLayersFrame(Run(fs, acts).files, dec, from, base, needle, digests[1..], q);
      }
    }
  }

  // ---------- the plan ----------

  /** Neither directory contains the other. */
  predicate Apart(from: string, base: string) {
    !OnPath(Resolve(from), Resolve(base)) && !OnPath(Resolve(base), Resolve(from))
  }

  /** All the actions of all layers, with every blob read from the one tree `fs`. */
  function Plan(fs: Files, dec: Decoder, from: string, base: string, needle: string, digests: seq<string>): seq<Action> {
    if digests == [] then []
    else LayerActions(fs, dec, from, base, needle, digests[0]) + Plan(fs, dec, from, base, needle, digests[1..])
  }

  /** Both trees hold the same blobs. */
  ghost predicate SameBlobs(a: Files, b: Files, from: string) {
    forall hex: string :: NodeAt(a, Resolve(from + "/" + hex)) == NodeAt(b, Resolve(from + "/" + hex))
  }

  lemma {:induction false} SamePlan(a: Files, b: Files, dec: Decoder, from: string, base: string, needle: string, digests: seq<string>)
    requires SameBlobs(a, b, from)
    ensures Plan(a, dec, from, base, needle, digests) == Plan(b, dec, from, base, needle, digests)
    decreases |digests|
  {
    if digests != [] {
      SamePlan(a, b, dec, from, base, needle, digests[1..]);
    }
  }

  lemma {:induction false} PlanUnder(fs: Files, dec: Decoder, from: string, base: string, needle: string, digests: seq<string>)
    ensures AllUnder(Plan(fs, dec, from, base, needle, digests), Resolve(base))
    decreases |digests|
  {
    if digests != [] {
      LayerUnder(fs, dec, from, base, needle, digests[0]);
      PlanUnder(fs, dec, from, base, needle, digests[1..]);
    }
  }

  /** Nothing below `from` is at, below or on the way to `base`. */
  lemma BlobsOutside(from: string, base: string, hex: string)
    requires Apart(from, base)
    ensures !OnPath(Resolve(base), Resolve(from + "/" + hex))
    ensures !OnPath(Resolve(from + "/" + hex), Resolve(base))
  {
    ResolveSlash(from, hex);
    OnOneLine(Resolve(from), Resolve(base), Resolve(from + "/" + hex));
    OnPathTransitive(Resolve(from), Resolve(from + "/" + hex), Resolve(base));
  }

  /** Extracting does not disturb the blobs. */
  lemma RunKeepsBlobs(fs: Files, acts: seq<Action>, from: string, base: string)
    requires WellFormed(fs) && AllUnder(acts, Resolve(base)) && Apart(from, base)
    ensures SameBlobs(fs, Run(fs, acts).files, from)
  {
    forall hex: string
      ensures NodeAt(fs, Resolve(from + "/" + hex)) == NodeAt(Run(fs, acts).files, Resolve(from + "/" + hex))
    {
      BlobsOutside(from, base, hex);
      RunFrame(fs, acts, Resolve(base), Resolve(from + "/" + hex));
    }
  }

  /** The nested loops over layers and entries do exactly the plan. */
  lemma {:induction false} LayersArePlan(fs: Files, dec: Decoder, from: string, base: string, needle: string, digests: seq<string>)
    requires WellFormed(fs) && Apart(from, base)
    ensures RunLayers(fs, dec, from, base, needle, digests) ==
            Run(fs, Plan(fs, dec, from, base, needle, digests))
    decreases |digests|
  {
    if digests != [] {
      var acts := LayerActions(fs, dec, from, base, needle, digests[0]);
      var rest := Plan(fs, dec, from, base, needle, digests[1..]);
      var r := Run(fs, acts);
      RunConcat(fs, acts, rest);
      if r.Ok() {
        LayerUnder(fs, dec, from, base, needle, digests[0]);
        RunWellFormed(fs, acts);
        RunKeepsBlobs(fs, acts, from, base);
        SamePlan(fs, r.files, dec, from, base, needle, digests[1..]);
        LayersArePlan(r.files, dec, from, base, needle, digests[1..]);
      }
    }
  }

  // ---------- the laws of a call ----------

  /**
    A call that starts on a target without the labelled directory: it succeeds
    exactly if its plan is feasible, and then leaves at every path the last
    write, a directory asked for, or what was there.
  */
  lemma ExtractOutcome(fs: Files, dec: Decoder, from: string, base: string, tag: string, digests: seq<string>, p: Path)
    requires WellFormed(fs) && Apart(from, base)
    requires Missing(fs, Resolve(base + tag))
    ensures var plan := Plan(fs, dec, from, base, TrimSlashes(tag), digests);
            var r := Extract(fs, dec, from, base, tag, digests);
            && (r.Ok() <==> Feasible(fs, plan))
            && (r.Ok() ==> NodeAt(r.files, p) == Outcome(fs, plan, p))
  {
    var plan := Plan(fs, dec, from, base, TrimSlashes(tag), digests);
    LayersArePlan(fs, dec, from, base, TrimSlashes(tag), digests);
    SuccessExact(fs, plan);
    if Run(fs, plan).Ok() {
      LastWriterWins(fs, plan, p);
    }
  }

  /** After a successful call the same call succeeds again and changes nothing, skipped or not. */
  lemma ExtractAgain(fs: Files, dec: Decoder, from: string, base: string, tag: string, digests: seq<string>)
    requires WellFormed(fs) && Apart(from, base)
    requires Extract(fs, dec, from, base, tag, digests).Ok()
    ensures var r := Extract(fs, dec, from, base, tag, digests);
            Extract(r.files, dec, from, base, tag, digests) == r
  {
    var needle := TrimSlashes(tag);
    var r := Extract(fs, dec, from, base, tag, digests);
    if Missing(fs, Resolve(base + tag)) && Missing(r.files, Resolve(base + tag)) {
      var plan := Plan(fs, dec, from, base, needle, digests);
      LayersArePlan(fs, dec, from, base, needle, digests);
      PlanUnder(fs, dec, from, base, needle, digests);
      RunWellFormed(fs, plan);
      RunKeepsBlobs(fs, plan, from, base);
      SamePlan(fs, r.files, dec, from, base, needle, digests);
      LayersArePlan(r.files, dec, from, base, needle, digests);
      RunAgain(fs, plan);
    }
  }

  /** The layer at which the fold fails: all layers before it were extracted, and none after it was touched. */
  lemma {:induction false} FailingLayer(fs: Files, dec: Decoder, from: string, base: string, needle: string, digests: seq<string>)
    returns (i: nat)
    requires !RunLayers(fs, dec, from, base, needle, digests).Ok()
    ensures i < |digests| && RunLayers(fs, dec, from, base, needle, digests[..i]).Ok()
    ensures var now := RunLayers(fs, dec, from, base, needle, digests[..i]).files;
            RunLayers(fs, dec, from, base, needle, digests) ==
            Run(now, LayerActions(now, dec, from, base, needle, digests[i]))
    decreases |digests|
  {
    var r := Run(fs, LayerActions(fs, dec, from, base, needle, digests[0]));
    if r.Ok() {
      i := FailingLayer(r.files, dec, from, base, needle, digests[1..]);
      assert digests[1..][..i] == digests[..i + 1][1..];
      assert digests[1..][i] == digests[i + 1];
      i := i + 1;
    } else {
      i := 0;
    }
  }

  /** The entry at which an archive fails: all entries before it were extracted. */
  lemma {:induction false} FailingEntry(fs: Files, base: string, needle: string, es: seq<Entry>) returns (j: nat)
    requires !Run(fs, EntriesActions(base, needle, es)).Ok()
    ensures j < |es| && Run(fs, EntriesActions(base, needle, es[..j])).Ok()
    ensures var before := Run(fs, EntriesActions(base, needle, es[..j])).files;
            var acts := EntryActions(base, needle, es[j]);
            |acts| == 1 && !Perform(before, acts[0]).Ok() &&
            Run(fs, EntriesActions(base, needle, es)) == Perform(before, acts[0])
    decreases |es|
  {
    var acts, rest := EntryActions(base, needle, es[0]), EntriesActions(base, needle, es[1..]);
    RunConcat(fs, acts, rest);
    if Run(fs, acts).Ok() {
      var next := Run(fs, acts).files;
      j := FailingEntry(next, base, needle, es[1..]);
      assert es[1..][..j] == es[..j + 1][1..] && es[1..][j] == es[j + 1];
      RunConcat(fs, acts, EntriesActions(base, needle, es[1..][..j]));
      j := j + 1;
    } else {
      j := 0;
      assert acts == [acts[0]];
      RunOne(fs, acts[0]);
    }
  }

  /** What a layer that fails has done to the tree it started from, with j the failing entry of its archive. */
  predicate FailsAt(now: Files, base: string, needle: string, layer: Layer, j: nat, r: Result) {
    match layer
    case Unreadable(failure) => r == Result(now, Some(failure))
    case Readable(NotGzip) => r == Result(now, Some(GzipFailed))
    case Readable(Archive(es, endsWell)) =>
      && j <= |es| && Run(now, EntriesActions(base, needle, es[..j])).Ok()
      && var before := Run(now, EntriesActions(base, needle, es[..j])).files;
         if j == |es| then !endsWell && r == Result(before, Some(NextFailed))
         else
           var acts := EntryActions(base, needle, es[j]);
           |acts| == 1 && !Perform(before, acts[0]).Ok() && r == Perform(before, acts[0])
  }

  lemma FailingBlob(now: Files, base: string, needle: string, layer: Layer) returns (j: nat)
    requires layer.Readable? && !Run(now, BlobActions(base, needle, layer.blob)).Ok()
    ensures FailsAt(now, base, needle, layer, j, Run(now, BlobActions(base, needle, layer.blob)))
  {
    j := 0;
    match layer.blob
    case NotGzip =>
      RunOne(now, Halt(GzipFailed));
    case Archive(es, endsWell) =>
      var acts, tail := EntriesActions(base, needle, es), if endsWell then [] else [Halt(NextFailed)];
      RunConcat(now, acts, tail);
      if Run(now, acts).Ok() {
        j := |es|;
        assert es[..j] == es;
        RunOne(Run(now, acts).files, Halt(NextFailed));
      } else {
        j := FailingEntry(now, base, needle, es);
      }
  }

  /**
    A call that fails does so at one entry j of one layer i.  The layers before
    i are extracted, so a malformed digest undoes nothing; the entries before j
    are extracted; no later entry or layer is touched; the failure reported is
    that of the failing step.
  */
  lemma ExtractFailure(fs: Files, dec: Decoder, from: string, base: string, tag: string, digests: seq<string>)
    returns (i: nat, j: nat)
    requires !Extract(fs, dec, from, base, tag, digests).Ok()
    ensures i < |digests|
    ensures var before := RunLayers(fs, dec, from, base, TrimSlashes(tag), digests[..i]);
            && before.Ok()
            && FailsAt(before.files, base, TrimSlashes(tag), ReadLayer(before.files, dec, from, digests[i]), j,
                       Extract(fs, dec, from, base, tag, digests))
  {
    var needle := TrimSlashes(tag);
    i := FailingLayer(fs, dec, from, base, needle, digests);
    j := 0;
    var now := RunLayers(fs, dec, from, base, needle, digests[..i]).files;
    match ReadLayer(now, dec, from, digests[i])
    case Unreadable(failure) =>
      RunOne(now, Halt(failure));
    case Readable(blob) =>
      j := FailingBlob(now, base, needle, Readable(blob));
  }

  // ---------- the first action of a plan ----------

  /** Every action's path lies at or below `base`, and no file is written at `base` itself. */
  predicate WritesBelow(acts: seq<Action>, base: Path) {
    AllUnder(acts, base) && forall i :: 0 <= i < |acts| && acts[i].Write? ==> acts[i].p != base
  }

  /** A name that resolves to nothing can only denote a directory. */
  lemma {:induction false} EmptyName(name: string)
    requires Resolve(name) == []
    ensures name == "" || DirectoryName(name)
    decreases |name|
  {
    if '/' in name {
      var i :| 0 <= i < |name| && name[i] == '/';
      var a, b := name[..i], name[i + 1..];
      assert name == a + "/" + b;
      ResolveSlash(a, b);
      EmptyName(b);
    } else {
      SplitWithout(name, '/');
      if IsComponent(name) {
        ResolveComponent(name);
      }
    }
  }

  lemma FileBelow(base: string, name: string)
    requires !DirectoryName(base + "/" + name)
    ensures Resolve(base + "/" + name) != Resolve(base)
  {
    assert Resolve(name) != [] by {
      if Resolve(name) == [] {
        EmptyName(name);
        DirectoryBelow(base, name);
        assert false;
      }
    }
    ResolveSlash(base, name);
    assert |Resolve(base) + Resolve(name)| != |Resolve(base)|;
  }

  lemma DirectoryBelow(base: string, name: string)
    requires name == "" || DirectoryName(name)
    ensures DirectoryName(base + "/" + name)
  {
    var whole := base + "/" + name;
    assert name == "" ==> whole[|whole| - 1] == '/';
    assert name == "." ==> whole[|whole| - 2..] == "/.";
    assert |name| > 1 ==> whole[|whole| - 2..] == name[|name| - 2..];
  }

  lemma EntryWritesBelow(base: string, needle: string, e: Entry)
    ensures WritesBelow(EntryActions(base, needle, e), Resolve(base))
  {
    var acts := EntryActions(base, needle, e);
    assert AllUnder(acts, Resolve(base)) by { EntryUnder(base, needle, e); }
    if |acts| == 1 && acts[0].Write? {
      assert acts[0].p == Resolve(base + "/" + e.name) && !DirectoryName(base + "/" + e.name);
      assert acts[0].p != Resolve(base) by { FileBelow(base, e.name); }
    }
  }

  lemma {:induction false} EntriesWriteBelow(base: string, needle: string, es: seq<Entry>)
    ensures WritesBelow(EntriesActions(base, needle, es), Resolve(base))
    decreases |es|
  {
    if es != [] {
      EntryWritesBelow(base, needle, es[0]);
      EntriesWriteBelow(base, needle, es[1..]);
    }
  }

  lemma {:induction false} PlanWritesBelow(fs: Files, dec: Decoder, from: string, base: string, needle: string, digests: seq<string>)
    ensures WritesBelow(Plan(fs, dec, from, base, needle, digests), Resolve(base))
    decreases |digests|
  {
    if digests != [] {
      var layer := ReadLayer(fs, dec, from, digests[0]);
      if layer.Readable? && layer.blob.Archive? {
        EntriesWriteBelow(base, needle, layer.blob.entries);
      }
      PlanWritesBelow(fs, dec, from, base, needle, digests[1..]);
    }
  }

  lemma {:induction false} EffectiveUnder(fs: Files, acts: seq<Action>, base: Path)
    requires WritesBelow(acts, base)
    ensures WritesBelow(Effective(fs, acts), base)
    decreases |acts|
  {
    if acts != [] && Perform(fs, acts[0]).Ok() {
      EffectiveUnder(Perform(fs, acts[0]).files, acts[1..], base);
    }
  }

  /** A target that does not exist yet comes to exist exactly if the plan begins with a directory, and otherwise nothing is done. */
  lemma FirstAction(fs: Files, acts: seq<Action>, base: Path)
    requires WellFormed(fs) && Missing(fs, base) && WritesBelow(acts, base)
    ensures Effective(fs, acts) == [] <==> acts == [] || !acts[0].Mkdir?
    ensures Avoids(Effective(fs, acts), base) <==> Effective(fs, acts) == []
  {
    if acts != [] {
      match acts[0]
      case Mkdir(p) =>
        MissingBelow(fs, base, p);
        MissingExact(fs, p);
        MakeAllExact(fs, p);
        assert Creates(Effective(fs, acts)[0], base);
      case Write(p, _, _) =>
        assert OnPath(base, Parent(p)) by { OnPathStep(p); }
        NothingBelowMissing(fs, base, Parent(p));
      case Halt(_) =>
    }
  }

  // ---------- what the guard looks for ----------

  lemma {:induction false} SplitPrefix(name: string, tag: string)
    requires '/' !in name
    ensures Split(name + tag, "/") == [name + Split(tag, "/")[0]] + Split(tag, "/")[1..]
    decreases |name|
  {
    if name == "" {
      assert name + tag == tag;
      assert name + Split(tag, "/")[0] == Split(tag, "/")[0];
    } else {
      SplitPrefix(name[1..], tag);
      assert name + tag == [name[0]] + (name[1..] + tag);
      SplitCons(name[0], name[1..] + tag, '/');
      assert [name[0]] + (name[1..] + Split(tag, "/")[0]) == name + Split(tag, "/")[0];
    }
  }

  /**
    The guard appends the label to the target's name, so the first part of the
    label prolongs the last part of the target.  It looks at or below the
    target exactly if the label is empty or begins with a slash, or the
    target's name ends in a slash or a dot component.
  */
  lemma GuardedPath(parent: string, name: string, tag: string)
    requires '/' !in name
    ensures var parts := Split(tag, "/");
            Resolve(parent + "/" + name + tag) == Resolve(parent) + Clean([name + parts[0]] + parts[1..])
    ensures tag != "" && tag[0] == '/' ==>
              Resolve(parent + "/" + name + tag) == Resolve(parent + "/" + name) + Resolve(tag[1..])
    ensures OnPath(Resolve(parent + "/" + name), Resolve(parent + "/" + name + tag)) <==>
            tag == "" || tag[0] == '/' || !IsComponent(name)
  {
    var base := parent + "/" + name;
    var parts := Split(tag, "/");
    assert base + tag == parent + "/" + (name + tag);
    ResolveSlash(parent, name + tag);
    SplitPrefix(name, tag);
    ResolveSlash(parent, name);
    if tag == "" {
      assert base + tag == base;
    } else if tag[0] == '/' {
      assert base + tag == base + "/" + tag[1..];
      ResolveSlash(base, tag[1..]);
    } else {
      UnslashedParts(tag);
      if IsComponent(name) {
        ResolveComponent(name);
        assert Clean([name + parts[0]] + parts[1..])[0] == name + parts[0] != name;
        var n := |Resolve(parent)|;
        assert Resolve(base)[n] == name && Resolve(base + tag)[n] == name + parts[0];
      } else {
        SplitWithout(name, '/');
        assert [name][1..] == [] && Clean([]) == [];
      }
    }
  }

  lemma UnslashedParts(tag: string)
    requires tag != "" && tag[0] != '/'
    ensures Split(tag, "/")[0] != ""
  {
    assert tag == [tag[0]] + tag[1..];
    SplitCons(tag[0], tag[1..], '/');
  }

  /** The guard lets every extraction into a target that does not exist go ahead. */
  ghost predicate GuardIsSound(base: string, tag: string) {
    forall fs :: WellFormed(fs) && Missing(fs, Resolve(base)) ==> Missing(fs, Resolve(base + tag))
  }

  lemma GuardSoundExactly(parent: string, name: string, tag: string)
    requires '/' !in name
    ensures GuardIsSound(parent + "/" + name, tag) <==> tag == "" || tag[0] == '/' || !IsComponent(name)
  {
    var base := parent + "/" + name;
    GuardedPath(parent, name, tag);
    MissingForced(Resolve(base), Resolve(base + tag));
  }

  /**
    A call that fails to extract: the label has no leading slash and a sibling
    of the target has the name the guard looks for.  The target does not exist,
    nothing is written, and no error is returned.
  */
  lemma GuardSkips(parent: string, name: string, tag: string, dec: Decoder, from: string, digests: seq<string>)
    returns (fs: Files)
    requires IsComponent(name) && tag != "" && tag[0] != '/'
    ensures WellFormed(fs) && Missing(fs, Resolve(parent + "/" + name))
    ensures Extract(fs, dec, from, parent + "/" + name, tag, digests) == Result(fs, None)
  {
    var base := parent + "/" + name;
    fs := OneDirectory(Resolve(base + tag));
    GuardedPath(parent, name, tag);
    MissingInOneDirectory(fs, Resolve(base), Resolve(base + tag));
    MissingInOneDirectory(fs, Resolve(base + tag), Resolve(base + tag));
    assert OnPath(Resolve(base + tag), Resolve(base + tag));
  }
}
