/**
  An extraction told by the entries of the image's layers: which of them leave
  what, when the extraction succeeds, and what it can change at all
  (pkg/manifest/manifest.go:84-105, 162-208).
*/
module EntryLaws {
  import opened Wrappers
  import opened Text
  import opened FileTree
  import opened Extraction
  import opened ExtractionLaws
  import opened LayerLaws

  // ---------- the entries of the layers ----------

  /** The file that a digest names in the directory of blobs. */
  function BlobFile(from: string, digest: string): Path {
    var parts := Split(digest, ":");
    Resolve(from + "/" + if |parts| > 1 then parts[1] else "")
  }

  function BlobAt(fs: Files, dec: Decoder, from: string, digest: string): Blob {
    match NodeAt(fs, BlobFile(from, digest))
    case Some(File(data)) => dec(data)
    case _ => NotGzip
  }

  /** The digest can be split, and names a file that is an archive read to its end. */
  predicate SoundLayer(fs: Files, dec: Decoder, from: string, digest: string) {
    && Contains(digest, "sha256") && |Split(digest, ":")| > 1
    && var blob := BlobAt(fs, dec, from, digest); blob.Archive? && blob.endsWell
  }

  function EntriesOf(blob: Blob): seq<Entry> {
    if blob.Archive? then blob.entries else []
  }

  /** The entries of all layers in (layer, position) order. */
  function AllEntries(fs: Files, dec: Decoder, from: string, digests: seq<string>): seq<Entry> {
    if digests == [] then []
    else EntriesOf(BlobAt(fs, dec, from, digests[0])) + AllEntries(fs, dec, from, digests[1..])
  }

  /** Entry k is a regular file that the label selects, and belongs at the path. */
  predicate FileFor(es: seq<Entry>, k: int, base: string, x: string, p: Path) {
    && 0 <= k < |es| && es[k].kind.Regular?
    && Contains(es[k].name, x) && Resolve(base + "/" + es[k].name) == p
  }

  /** Entry k is a directory that the label selects, at or below the path. */
  predicate DirFor(es: seq<Entry>, k: int, base: string, x: string, p: Path) {
    && 0 <= k < |es| && es[k].kind.Directory? && es[k].name != "./"
    && Contains(es[k].name, x) && OnPath(p, Resolve(base + "/" + es[k].name))
  }

  predicate LastFileFor(es: seq<Entry>, k: int, base: string, x: string, p: Path) {
    FileFor(es, k, base, x, p) && forall l :: k < l < |es| ==> !FileFor(es, l, base, x, p)
  }

  predicate NoFileFor(es: seq<Entry>, base: string, x: string, p: Path) {
    forall k :: 0 <= k < |es| ==> !FileFor(es, k, base, x, p)
  }

  predicate AnyDirFor(es: seq<Entry>, base: string, x: string, p: Path) {
    exists k :: 0 <= k < |es| && DirFor(es, k, base, x, p)
  }

  // ---------- one entry ----------

  ghost predicate Unchanged(before: Files, after: Files) {
    forall q :: NodeAt(after, q) == NodeAt(before, q)
  }

  /**
    What one entry does: nothing if the label does not select it, but broken
    data stops the archive; a directory with its ancestors, or an error if a
    regular file is in the way; a file with the entry's data in an existing
    directory, and an error if the data breaks off.
  */
  ghost predicate EntryEffect(before: Files, e: Entry, base: string, x: string, after: Files, failure: Option<Failure>) {
    var name := base + "/" + e.name;
    var p := Resolve(name);
    match e.kind
    case Other => failure.None? && Unchanged(before, after)
    case Directory =>
      if !Contains(e.name, x) || e.name == "./" then failure.None? && Unchanged(before, after)
      else if exists q :: OnPath(q, p) && IsFile(before, q) then failure == Some(MkdirFailed) && Unchanged(before, after)
      else failure.None? && forall q :: NodeAt(after, q) == if OnPath(q, p) then Some(Dir) else NodeAt(before, q)
    case Regular(data, intact) =>
      if !Contains(e.name, x) then failure == (if intact then None else Some(NextFailed)) && Unchanged(before, after)
      else if DirectoryName(name) || p == [] || !IsDir(before, Parent(p)) || IsDir(before, p) then
        failure == Some(CreateFailed) && Unchanged(before, after)
      else
        && failure == (if intact then None else Some(CopyFailed))
        && forall q :: NodeAt(after, q) == if q == p then Some(File(data)) else NodeAt(before, q)
  }

  lemma EntryExactly(fs: Files, base: string, x: string, e: Entry)
    requires WellFormed(fs)
    ensures var r := Run(fs, EntryActions(base, x, e)); EntryEffect(fs, e, base, x, r.files, r.failure)
  {
    var acts, p := EntryActions(base, x, e), Resolve(base + "/" + e.name);
    if acts != [] {
      assert acts == [acts[0]];
      RunOne(fs, acts[0]);
    }
    match e.kind
    case Directory => MakeAllExact(fs, p);
    case Regular(data, _) =>
      if CanCreate(fs, p) {
        WriteWellFormed(fs, p, data);
      }
    case Other =>
  }

  // ---------- the actions of entries ----------

  lemma {:induction false} EntriesConcat(base: string, x: string, a: seq<Entry>, b: seq<Entry>)
    ensures EntriesActions(base, x, a + b) == EntriesActions(base, x, a) + EntriesActions(base, x, b)
    decreases |a|
  {
    if a == [] {
      assert a + b == b;
    } else {
      assert (a + b)[1..] == a[1..] + b;
      EntriesConcat(base, x, a[1..], b);
    }
  }

  lemma EntriesLast(base: string, x: string, es: seq<Entry>)
    requires es != []
    ensures EntriesActions(base, x, es) ==
            EntriesActions(base, x, es[..|es| - 1]) + EntryActions(base, x, es[|es| - 1])
  {
    var n := |es| - 1;
    assert es[..n] + [es[n]] == es;
    EntriesConcat(base, x, es[..n], [es[n]]);
    assert [es[n]][1..] == [];
  }

  predicate NoHalt(acts: seq<Action>) {
    forall i :: 0 <= i < |acts| ==> !acts[i].Halt?
  }

  /** What a single entry asks for at a path. */
  lemma OneEntry(base: string, x: string, e: Entry, p: Path)
    requires NoHalt(EntryActions(base, x, e))
    ensures LastWrite(EntryActions(base, x, e), p) == if FileFor([e], 0, base, x, p) then Some(e.kind.data) else None
    ensures MakesDir(EntryActions(base, x, e), p) == DirFor([e], 0, base, x, p)
  {
    var acts := EntryActions(base, x, e);
    assert |acts| <= 1;
    if acts != [] {
      assert acts[..|acts| - 1] == [];
      assert MakesDir(acts, p) <==> Creates(acts[0], p);
    }
  }

  lemma LastWriteConcat(a: seq<Action>, b: seq<Action>, p: Path)
    requires |b| <= 1
    ensures LastWrite(a + b, p) == if LastWrite(b, p).Some? then LastWrite(b, p) else LastWrite(a, p)
    ensures MakesDir(a + b, p) <==> MakesDir(a, p) || MakesDir(b, p)
  {
    if b == [] {
      assert a + b == a;
    } else {
      assert (a + b)[..|a + b| - 1] == a && b[..|b| - 1] == [];
      MakesDirLast(a + b, p);
    }
  }

  /** The last write at a path is by the last file entry for it, and directories come from directory entries. */
  lemma {:induction false} EntriesAt(base: string, x: string, es: seq<Entry>, p: Path)
    requires NoHalt(EntriesActions(base, x, es))
    ensures forall k :: LastFileFor(es, k, base, x, p) ==>
                          LastWrite(EntriesActions(base, x, es), p) == Some(es[k].kind.data)
    ensures LastWrite(EntriesActions(base, x, es), p).None? <==> NoFileFor(es, base, x, p)
    ensures MakesDir(EntriesActions(base, x, es), p) <==> AnyDirFor(es, base, x, p)
    decreases |es|
  {
    if es != [] {
      var n := |es| - 1;
      var init := es[..n];
      GrowActions(base, x, es, p);
      EntriesAt(base, x, init, p);
      LastEntryFor(es, base, x, p);
    }
  }

  /** How the actions for a path grow by those of the last entry. */
  lemma GrowActions(base: string, x: string, es: seq<Entry>, p: Path)
    requires es != [] && NoHalt(EntriesActions(base, x, es))
    ensures var n := |es| - 1;
            var acts, before := EntriesActions(base, x, es), EntriesActions(base, x, es[..n]);
            && NoHalt(before)
            && LastWrite(acts, p) == (if FileFor([es[n]], 0, base, x, p) then Some(es[n].kind.data) else LastWrite(before, p))
            && MakesDir(acts, p) == (MakesDir(before, p) || DirFor([es[n]], 0, base, x, p))
  {
    var n := |es| - 1;
    var a, b := EntriesActions(base, x, es[..n]), EntryActions(base, x, es[n]);
    EntriesLast(base, x, es);
    NoHaltConcat(a, b);
    OneEntry(base, x, es[n], p);
    LastWriteConcat(a, b, p);
  }

  /** How the entries for a path grow by the last one. */
  lemma LastEntryFor(es: seq<Entry>, base: string, x: string, p: Path)
    requires es != []
    ensures var n := |es| - 1;
            var f := FileFor([es[n]], 0, base, x, p);
            && (forall k :: LastFileFor(es, k, base, x, p) <==> if f then k == n else LastFileFor(es[..n], k, base, x, p))
            && (NoFileFor(es, base, x, p) <==> !f && NoFileFor(es[..n], base, x, p))
            && (AnyDirFor(es, base, x, p) <==> DirFor([es[n]], 0, base, x, p) || AnyDirFor(es[..n], base, x, p))
  {
    var n := |es| - 1;
    assert forall k :: 0 <= k < n ==> es[..n][k] == es[k];
    assert forall k :: 0 <= k < n ==> (FileFor(es, k, base, x, p) <==> FileFor(es[..n], k, base, x, p));
    assert forall k :: 0 <= k < n ==> (DirFor(es, k, base, x, p) <==> DirFor(es[..n], k, base, x, p));
    assert FileFor(es, n, base, x, p) <==> FileFor([es[n]], 0, base, x, p);
    assert DirFor(es, n, base, x, p) <==> DirFor([es[n]], 0, base, x, p);
  }

  // ---------- the plan of sound layers ----------

  predicate SoundLayers(fs: Files, dec: Decoder, from: string, digests: seq<string>) {
    forall i :: 0 <= i < |digests| ==> SoundLayer(fs, dec, from, digests[i])
  }

  lemma OneLayer(fs: Files, dec: Decoder, from: string, base: string, x: string, digest: string)
    ensures SoundLayer(fs, dec, from, digest) ==>
              LayerActions(fs, dec, from, base, x, digest) == EntriesActions(base, x, EntriesOf(BlobAt(fs, dec, from, digest)))
    ensures !SoundLayer(fs, dec, from, digest) ==> !NoHalt(LayerActions(fs, dec, from, base, x, digest))
  {
    var acts := LayerActions(fs, dec, from, base, x, digest);
    var layer := ReadLayer(fs, dec, from, digest);
    if layer.Readable? && layer.blob.Archive? && !layer.blob.endsWell {
      assert acts[|acts| - 1] == Halt(NextFailed);
    } else if SoundLayer(fs, dec, from, digest) {
      assert layer == Readable(BlobAt(fs, dec, from, digest));
      assert EntriesActions(base, x, layer.blob.entries) + [] == EntriesActions(base, x, layer.blob.entries);
    } else {
      assert acts[0].Halt?;
    }
  }

  lemma SoundFirst(fs: Files, dec: Decoder, from: string, digests: seq<string>)
    requires digests != []
    ensures SoundLayers(fs, dec, from, digests) ==
            (SoundLayer(fs, dec, from, digests[0]) && SoundLayers(fs, dec, from, digests[1..]))
  {
    assert forall i :: 0 < i < |digests| ==> digests[i] == digests[1..][i - 1];
  }

  lemma NoHaltConcat(a: seq<Action>, b: seq<Action>)
    ensures NoHalt(a + b) == (NoHalt(a) && NoHalt(b))
  {
    var s := a + b;
    assert forall i :: 0 <= i < |a| ==> a[i] == s[i];
    assert forall i :: 0 <= i < |b| ==> b[i] == s[|a| + i];
  }

  lemma {:induction false} LayersOfEntries(fs: Files, dec: Decoder, from: string, base: string, x: string, digests: seq<string>)
    ensures SoundLayers(fs, dec, from, digests) ==>
              Plan(fs, dec, from, base, x, digests) == EntriesActions(base, x, AllEntries(fs, dec, from, digests))
    ensures !SoundLayers(fs, dec, from, digests) ==> !NoHalt(Plan(fs, dec, from, base, x, digests))
    decreases |digests|
  {
    if digests != [] {
      var acts, rest := LayerActions(fs, dec, from, base, x, digests[0]), Plan(fs, dec, from, base, x, digests[1..]);
      OneLayer(fs, dec, from, base, x, digests[0]);
      LayersOfEntries(fs, dec, from, base, x, digests[1..]);
      SoundFirst(fs, dec, from, digests);
      EntriesConcat(base, x, EntriesOf(BlobAt(fs, dec, from, digests[0])), AllEntries(fs, dec, from, digests[1..]));
      NoHaltConcat(acts, rest);
    }
  }

  lemma FeasibleNoHalt(fs: Files, acts: seq<Action>)
    requires Feasible(fs, acts)
    ensures NoHalt(acts)
  {
    forall i | 0 <= i < |acts| ensures !acts[i].Halt? {
      assert FeasibleAt(fs, acts, i);
    }
  }

  // ---------- last writer wins, by entries ----------

  /**
    After a successful extraction that was not skipped, a path holds the data
    of the last regular entry for it, in (layer, position) order, whose name
    contains the trimmed label; otherwise it is a directory if such a directory
    entry lies at or below it; otherwise it holds what it held before.
  */
  lemma EntriesWin(fs: Files, dec: Decoder, from: string, base: string, tag: string, digests: seq<string>, p: Path)
    requires WellFormed(fs) && Apart(from, base) && Missing(fs, Resolve(base + tag))
    requires Extract(fs, dec, from, base, tag, digests).Ok()
    ensures var es, x := AllEntries(fs, dec, from, digests), TrimSlashes(tag);
            var after := NodeAt(Extract(fs, dec, from, base, tag, digests).files, p);
            && SoundLayers(fs, dec, from, digests)
            && (forall k :: LastFileFor(es, k, base, x, p) ==> after == Some(File(es[k].kind.data)))
            && (NoFileFor(es, base, x, p) ==> after == if AnyDirFor(es, base, x, p) then Some(Dir) else NodeAt(fs, p))
  {
    var es, x := AllEntries(fs, dec, from, digests), TrimSlashes(tag);
    var plan := Plan(fs, dec, from, base, x, digests);
    ExtractOutcome(fs, dec, from, base, tag, digests, p);
    FeasibleNoHalt(fs, plan);
    LayersOfEntries(fs, dec, from, base, x, digests);
    EntriesAt(base, x, es, p);
  }

  /** Where there is a file entry for a path there is a last one. */
  lemma {:induction false} LastFileExists(es: seq<Entry>, base: string, x: string, p: Path) returns (k: nat)
    requires !NoFileFor(es, base, x, p)
    ensures LastFileFor(es, k, base, x, p)
    decreases |es|
  {
    var n := |es| - 1;
    LastEntryFor(es, base, x, p);
    if FileFor([es[n]], 0, base, x, p) {
      k := n;
    } else {
      k := LastFileExists(es[..n], base, x, p);
    }
  }

  // ---------- the exact success condition, by entries ----------

  /** What entry k needs, said of the tree before the extraction and of the other entries. */
  ghost predicate EntrySound(fs: Files, es: seq<Entry>, k: nat, base: string, x: string)
    requires k < |es|
  {
    var name := base + "/" + es[k].name;
    match es[k].kind
    case Other => true
    case Directory =>
      Contains(es[k].name, x) && es[k].name != "./" ==> forall q :: OnPath(q, Resolve(name)) ==> !IsFile(fs, q)
    case Regular(_, intact) =>
      intact &&
      (Contains(es[k].name, x) ==>
         var p := Resolve(name);
         && !DirectoryName(name) && p != [] && !IsDir(fs, p) && !AnyDirFor(es, base, x, p)
         && (IsDir(fs, Parent(p)) || AnyDirFor(es[..k], base, x, Parent(p))))
  }

  ghost predicate EntriesSound(fs: Files, es: seq<Entry>, base: string, x: string) {
    forall k :: 0 <= k < |es| ==> EntrySound(fs, es, k, base, x)
  }

  /** Where the action of entry k stands among the actions of all. */
  lemma EntryIndex(base: string, x: string, es: seq<Entry>, k: nat)
    requires k < |es|
    ensures var acts, before, one := EntriesActions(base, x, es), EntriesActions(base, x, es[..k]), EntryActions(base, x, es[k]);
            && |before| + |one| <= |acts| && |one| <= 1
            && acts[..|before|] == before && acts[|before|..|before| + |one|] == one
  {
    assert es[..k] + [es[k]] == es[..k + 1] && es[..k + 1] + es[k + 1..] == es;
    EntriesConcat(base, x, es[..k + 1], es[k + 1..]);
    EntriesLast(base, x, es[..k + 1]);
    assert es[..k + 1][..k] == es[..k] && es[..k + 1][k] == es[k];
    Slices(EntriesActions(base, x, es[..k]), EntryActions(base, x, es[k]), EntriesActions(base, x, es[k + 1..]));
  }

  lemma Slices(a: seq<Action>, b: seq<Action>, c: seq<Action>)
    ensures (a + b + c)[..|a|] == a && (a + b + c)[|a|..|a| + |b|] == b
  {
  }

  lemma {:induction false} IndexEntry(base: string, x: string, es: seq<Entry>, i: nat) returns (k: nat)
    requires i < |EntriesActions(base, x, es)|
    ensures k < |es| && i == |EntriesActions(base, x, es[..k])| && EntryActions(base, x, es[k]) == [EntriesActions(base, x, es)[i]]
    decreases |es|
  {
    var n := |es| - 1;
    EntriesLast(base, x, es);
    if i < |EntriesActions(base, x, es[..n])| {
      k := IndexEntry(base, x, es[..n], i);
      assert es[..n][..k] == es[..k];
    } else {
      k := n;
    }
  }

  /** An entry that asks for something is sound exactly if its action is feasible, and others exactly if they halt nothing. */
  lemma EntryFeasible(fs: Files, base: string, x: string, es: seq<Entry>, k: nat)
    requires k < |es| && NoHalt(EntriesActions(base, x, es))
    ensures EntryActions(base, x, es[k]) == [] ==> EntrySound(fs, es, k, base, x)
    ensures var i := |EntriesActions(base, x, es[..k])|;
            EntryActions(base, x, es[k]) != [] ==>
              i < |EntriesActions(base, x, es)| &&
              EntrySound(fs, es, k, base, x) == FeasibleAt(fs, EntriesActions(base, x, es), i)
  {
    var acts, before, one := EntriesActions(base, x, es), EntriesActions(base, x, es[..k]), EntryActions(base, x, es[k]);
    EntryIndex(base, x, es, k);
    if one != [] {
      assert acts[|before|] == one[0];
      if one[0].Write? {
        var p := one[0].p;
        EntriesAt(base, x, es, p);
        assert NoHalt(before) by { assert forall i :: 0 <= i < |before| ==> before[i] == acts[i]; }
        if p != [] {
          EntriesAt(base, x, es[..k], Parent(p));
        }
      }
    }
  }

  lemma SoundNoHalt(fs: Files, base: string, x: string, es: seq<Entry>)
    requires EntriesSound(fs, es, base, x)
    ensures NoHalt(EntriesActions(base, x, es))
  {
    var acts := EntriesActions(base, x, es);
    forall i | 0 <= i < |acts| ensures !acts[i].Halt? {
      var k := IndexEntry(base, x, es, i);
      assert EntrySound(fs, es, k, base, x);
    }
  }

  lemma EntriesFeasible(fs: Files, base: string, x: string, es: seq<Entry>)
    ensures Feasible(fs, EntriesActions(base, x, es)) <==> EntriesSound(fs, es, base, x)
  {
    var acts := EntriesActions(base, x, es);
    if Feasible(fs, acts) {
      FeasibleNoHalt(fs, acts);
      forall k | 0 <= k < |es| ensures EntrySound(fs, es, k, base, x) {
        EntryFeasible(fs, base, x, es, k);
      }
    }
    if EntriesSound(fs, es, base, x) {
      SoundNoHalt(fs, base, x, es);
      forall i | 0 <= i < |acts| ensures FeasibleAt(fs, acts, i) {
        var k := IndexEntry(base, x, es, i);
        EntryFeasible(fs, base, x, es, k);
        assert EntrySound(fs, es, k, base, x);
      }
    }
  }

  /**
    An extraction that is not skipped succeeds if and only if every digest can
    be split and names an archive that is read to its end, the data of every
    regular entry is read in full, selected or not, and among the entries that
    the label selects no path is both a file and a directory and every file's
    parent is a directory before or by an earlier entry.
  */
  lemma ExtractSucceedsExactly(fs: Files, dec: Decoder, from: string, base: string, tag: string, digests: seq<string>)
    requires WellFormed(fs) && Apart(from, base) && Missing(fs, Resolve(base + tag))
    ensures Extract(fs, dec, from, base, tag, digests).Ok() <==>
            SoundLayers(fs, dec, from, digests) && EntriesSound(fs, AllEntries(fs, dec, from, digests), base, TrimSlashes(tag))
  {
    var es, x := AllEntries(fs, dec, from, digests), TrimSlashes(tag);
    var plan := Plan(fs, dec, from, base, x, digests);
    ExtractOutcome(fs, dec, from, base, tag, digests, []);
    LayersOfEntries(fs, dec, from, base, x, digests);
    if Feasible(fs, plan) {
      FeasibleNoHalt(fs, plan);
    }
    if SoundLayers(fs, dec, from, digests) {
      EntriesFeasible(fs, base, x, es);
    }
  }

  // ---------- what an extraction can change at all ----------

  /** The entry is selected by the label and lies at or below the path. */
  predicate Reaches(e: Entry, base: string, x: string, p: Path) {
    Contains(e.name, x) && !e.kind.Other? && OnPath(p, Resolve(base + "/" + e.name))
  }

  predicate SomeReaches(es: seq<Entry>, base: string, x: string, p: Path) {
    exists k :: 0 <= k < |es| && Reaches(es[k], base, x, p)
  }

  predicate Touches(acts: seq<Action>, p: Path) {
    exists i :: 0 <= i < |acts| && !acts[i].Halt? && OnPath(p, acts[i].p)
  }

  lemma TouchesConcat(a: seq<Action>, b: seq<Action>, p: Path)
    ensures Touches(a + b, p) <==> Touches(a, p) || Touches(b, p)
  {
    var s := a + b;
    assert forall i :: 0 <= i < |a| ==> a[i] == s[i];
    assert forall i :: 0 <= i < |b| ==> b[i] == s[|a| + i];
    if Touches(s, p) {
      var i :| 0 <= i < |s| && !s[i].Halt? && OnPath(p, s[i].p);
      if i >= |a| {
        assert b[i - |a|] == s[i];
      }
    }
  }

  lemma {:induction false} EntriesTouch(base: string, x: string, es: seq<Entry>, p: Path)
    requires Touches(EntriesActions(base, x, es), p)
    ensures SomeReaches(es, base, x, p)
    decreases |es|
  {
    var first, rest := EntryActions(base, x, es[0]), EntriesActions(base, x, es[1..]);
    TouchesConcat(first, rest, p);
    if Touches(first, p) {
      assert Reaches(es[0], base, x, p);
    } else {
      EntriesTouch(base, x, es[1..], p);
      var k :| 0 <= k < |es[1..]| && Reaches(es[1..][k], base, x, p);
      assert Reaches(es[k + 1], base, x, p);
    }
  }

  lemma LayerTouches(fs: Files, dec: Decoder, from: string, base: string, x: string, digest: string, p: Path)
    requires Touches(LayerActions(fs, dec, from, base, x, digest), p)
    ensures SomeReaches(EntriesOf(BlobAt(fs, dec, from, digest)), base, x, p)
  {
    var layer := ReadLayer(fs, dec, from, digest);
    assert layer.Readable? && layer.blob.Archive? && layer.blob == BlobAt(fs, dec, from, digest);
    var es, end := layer.blob.entries, if layer.blob.endsWell then [] else [Halt(NextFailed)];
    TouchesConcat(EntriesActions(base, x, es), end, p);
    EntriesTouch(base, x, es, p);
  }

  lemma {:induction false} PlanTouches(fs: Files, dec: Decoder, from: string, base: string, x: string, digests: seq<string>, p: Path)
    requires Touches(Plan(fs, dec, from, base, x, digests), p)
    ensures SomeReaches(AllEntries(fs, dec, from, digests), base, x, p)
    decreases |digests|
  {
    var first, rest := LayerActions(fs, dec, from, base, x, digests[0]), Plan(fs, dec, from, base, x, digests[1..]);
    var a, b := EntriesOf(BlobAt(fs, dec, from, digests[0])), AllEntries(fs, dec, from, digests[1..]);
    TouchesConcat(first, rest, p);
    if Touches(first, p) {
      LayerTouches(fs, dec, from, base, x, digests[0], p);
      var k :| 0 <= k < |a| && Reaches(a[k], base, x, p);
      assert (a + b)[k] == a[k];
    } else {
      PlanTouches(fs, dec, from, base, x, digests[1..], p);
      var k :| 0 <= k < |b| && Reaches(b[k], base, x, p);
      assert (a + b)[|a| + k] == b[k];
    }
  }

  lemma PerformTouches(fs: Files, a: Action, p: Path)
    requires WellFormed(fs) && NodeAt(Perform(fs, a).files, p) != NodeAt(fs, p)
    ensures !a.Halt? && OnPath(p, a.p)
  {
    match a
    case Mkdir(q) => MakeAllExact(fs, q);
    case Write(q, data, _) =>
      assert OnPath(q, q);
      if CanCreate(fs, q) {
        WriteWellFormed(fs, q, data);
      }
    case Halt(_) =>
  }

  lemma {:induction false} RunTouches(fs: Files, acts: seq<Action>, p: Path)
    requires WellFormed(fs) && NodeAt(Run(fs, acts).files, p) != NodeAt(fs, p)
    ensures Touches(acts, p)
    decreases |acts|
  {
    var r := Perform(fs, acts[0]);
    PerformWellFormed(fs, acts[0]);
    if NodeAt(r.files, p) != NodeAt(fs, p) {
      PerformTouches(fs, acts[0], p);
    } else {
      RunTouches(r.files, acts[1..], p);
      var i :| 0 <= i < |acts[1..]| && !acts[1..][i].Halt? && OnPath(p, acts[1..][i].p);
      assert acts[i + 1] == acts[1..][i];
    }
  }

  /** The label is the text itself, or has a slash more at one end or both. */
  predicate Labels(tag: string, x: string) {
    && (x == "" || (x[0] != '/' && x[|x| - 1] != '/'))
    && (tag == x || tag == "/" + x || tag == x + "/" || tag == "/" + x + "/")
  }

  /**
    Whatever comes of an extraction, a path that it changed lies at, or on the
    way to, an entry of some layer whose name contains the label without its
    slashes.
  */
  lemma OnlySelectedChange(fs: Files, dec: Decoder, from: string, base: string, tag: string, x: string, digests: seq<string>, p: Path)
    requires WellFormed(fs) && Apart(from, base) && Labels(tag, x)
    requires NodeAt(Extract(fs, dec, from, base, tag, digests).files, p) != NodeAt(fs, p)
    ensures exists k :: 0 <= k < |AllEntries(fs, dec, from, digests)|
                        && Contains(AllEntries(fs, dec, from, digests)[k].name, x)
                        && OnPath(p, Resolve(base + "/" + AllEntries(fs, dec, from, digests)[k].name))
  {
    var es := AllEntries(fs, dec, from, digests);
    TrimSlashesExactly(x);
    LayersArePlan(fs, dec, from, base, x, digests);
    RunTouches(fs, Plan(fs, dec, from, base, x, digests), p);
    PlanTouches(fs, dec, from, base, x, digests, p);
    var k :| 0 <= k < |es| && Reaches(es[k], base, x, p);
  }

  // ---------- layers that cannot be read ----------

  /** Why a layer fails before its first entry: the tree is as it was. */
  lemma LayerStops(fs: Files, dec: Decoder, from: string, base: string, x: string, digest: string)
    ensures var r := Run(fs, LayerActions(fs, dec, from, base, x, digest));
            if !Contains(digest, "sha256") then r == Result(fs, Some(BadDigest))
            else if ':' !in digest then r == Result(fs, Some(NoColon))
            else
              match NodeAt(fs, BlobFile(from, digest))
              case None => r == Result(fs, Some(NoBlob))
              case Some(Dir) => r == Result(fs, Some(GzipFailed))
              case Some(File(data)) => dec(data).NotGzip? ==> r == Result(fs, Some(GzipFailed))
  {
    var acts := LayerActions(fs, dec, from, base, x, digest);
    SplitHasColon(digest, ':');
    if |acts| == 1 && acts[0].Halt? {
      assert acts == [acts[0]];
      RunOne(fs, acts[0]);
    }
  }

  lemma {:induction false} SplitHasColon(s: string, c: char)
    ensures |Split(s, [c])| > 1 <==> c in s
    decreases |s|
  {
    if s != "" {
      SplitHasColon(s[1..], c);
      SplitCons(s[0], s[1..], c);
      assert s == [s[0]] + s[1..];
    }
  }
}
