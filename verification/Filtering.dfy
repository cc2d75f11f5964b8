/**
  Filtered extraction against extracting everything: the filter keeps the
  entries whose name contains the label, so it may drop the directory entries
  that a kept file needs.
*/
module Filtering {
  import opened Wrappers
  import opened Text
  import opened FileTree
  import opened Extraction
  import opened ExtractionLaws
  import opened LayerLaws

  /** The name of a path, as it stands in an archive. */
  function NameOf(p: Path): string {
    Join(p, "/")
  }

  /**
    An entry's name spells its path: a leading "./" and a trailing slash are
    allowed, empty or "." components in the middle are not.
  */
  predicate Canonical(e: Entry) {
    Contains(e.name, NameOf(Resolve(e.name)))
  }

  predicate CanonicalBlob(blob: Blob) {
    blob.Archive? ==> forall i :: 0 <= i < |blob.entries| ==> Canonical(blob.entries[i])
  }

  predicate CanonicalLayers(fs: Files, dec: Decoder, from: string, digests: seq<string>) {
    forall i :: 0 <= i < |digests| ==>
      var layer := ReadLayer(fs, dec, from, digests[i]);
      layer.Readable? ==> CanonicalBlob(layer.blob)
  }

  // ---------- containing the label is inherited by descendants ----------

  /** A path's name begins with the names of the paths on the way to it. */
  lemma {:induction false} NamePrefix(q: Path, p: Path)
    requires OnPath(q, p)
    ensures NameOf(q) <= NameOf(p)
    decreases |q|
  {
    if q != [] {
      assert q[0] == p[0];
      if |q| == 1 {
        assert |p| > 1 ==> NameOf(p) == p[0] + ("/" + NameOf(p[1..]));
      } else {
        NamePrefix(q[1..], p[1..]);
        var rest := NameOf(p[1..])[|NameOf(q[1..])|..];
        assert NameOf(p[1..]) == NameOf(q[1..]) + rest;
        assert NameOf(p) == NameOf(q) + rest by {
          assert NameOf(q) == q[0] + "/" + NameOf(q[1..]);
          assert NameOf(p) == q[0] + "/" + (NameOf(q[1..]) + rest);
        }
      }
    }
  }

  /** An entry at or below a path whose name contains the label contains it too. */
  lemma LabelInherited(e: Entry, r: Path, needle: string)
    requires Canonical(e) && OnPath(r, Resolve(e.name)) && Contains(NameOf(r), needle)
    ensures Contains(e.name, needle)
  {
    NamePrefix(r, Resolve(e.name));
    var name := NameOf(Resolve(e.name));
    assert name == "" + NameOf(r) + name[|NameOf(r)|..];
    ContainsInside("", NameOf(r), name[|NameOf(r)|..], needle);
    ContainsTransitive(e.name, name, needle);
  }

  lemma ContainsTransitive(s: string, t: string, u: string)
    requires Contains(s, t) && Contains(t, u)
    ensures Contains(s, u)
  {
    ContainsExact(s, t);
    var i: nat :| i <= |s| && t <= s[i..];
    assert s == s[..i] + t + s[i + |t|..];
    ContainsInside(s[..i], t, s[i + |t|..], u);
  }

  /** Every label that a path at or above the entry's contains is in the entry's name too. */
  ghost predicate Inherits(e: Entry) {
    forall r, needle: string :: OnPath(r, Resolve(e.name)) && Contains(NameOf(r), needle) ==> Contains(e.name, needle)
  }

  /** Canonical names are exactly those that inherit every label. */
  lemma InheritedExactly(e: Entry)
    ensures Canonical(e) == Inherits(e)
  {
    var p := Resolve(e.name);
    if Canonical(e) {
      forall r, needle: string | OnPath(r, p) && Contains(NameOf(r), needle) ensures Contains(e.name, needle) {
        LabelInherited(e, r, needle);
      }
    }
    if Inherits(e) {
      ContainsSelf(NameOf(p));
      assert OnPath(p, p) && Contains(NameOf(p), NameOf(p));
    }
  }

  /** The forms that archives use are canonical. */
  lemma CanonicalForms(p: Path, kind: Kind)
    requires forall i :: 0 <= i < |p| ==> IsComponent(p[i])
    ensures Resolve(NameOf(p)) == p
    ensures Canonical(Entry(NameOf(p), kind)) && Canonical(Entry("./" + NameOf(p), kind))
    ensures Canonical(Entry(NameOf(p) + "/", kind)) && Canonical(Entry("./" + NameOf(p) + "/", kind))
  {
    var name := NameOf(p);
    NameResolves(p);
    DotAndSlash(name);
    SpelledIn("", name, "", kind);
    SpelledIn("./", name, "", kind);
    SpelledIn("", name, "/", kind);
    SpelledIn("./", name, "/", kind);
    assert "" + name == name && name + "" == name && "./" + name + "" == "./" + name;
  }

  lemma SpelledIn(before: string, name: string, after: string, kind: Kind)
    requires NameOf(Resolve(before + name + after)) == name
    ensures Canonical(Entry(before + name + after, kind))
  {
    ContainsSelf(name);
    ContainsInside(before, name, after, name);
  }

  /** A leading "./" and a trailing slash do not change what a name resolves to. */
  lemma DotAndSlash(name: string)
    ensures Resolve("" + name + "") == Resolve(name) && Resolve("./" + name + "") == Resolve(name)
    ensures Resolve("" + name + "/") == Resolve(name) && Resolve("./" + name + "/") == Resolve(name)
  {
    assert Resolve("") == [] by { assert Split("", "/") == [""] && Clean([""]) == []; }
    assert Resolve(".") == [] by { SplitWithout(".", '/'); assert Clean(["."]) == []; }
    assert Resolve("." + "/" + name) == Resolve(name) by { ResolveSlash(".", name); }
    assert Resolve(name + "/" + "") == Resolve(name) by { ResolveSlash(name, ""); }
    assert Resolve("." + "/" + (name + "/")) == Resolve(name + "/") by { ResolveSlash(".", name + "/"); }
    SameNames(name);
  }

  lemma SameNames(name: string)
    ensures "" + name + "" == name && "./" + name + "" == "." + "/" + name
    ensures "" + name + "/" == name + "/" + "" && name + "/" == name + "/" + ""
    ensures "./" + name + "/" == "." + "/" + (name + "/")
  {
  }

  lemma {:induction false} NameResolves(p: Path)
    requires forall i :: 0 <= i < |p| ==> IsComponent(p[i])
    ensures Resolve(NameOf(p)) == p
    decreases |p|
  {
    if p == [] {
      assert Split("", "/") == [""] && Clean([""]) == [];
    } else {
      ResolveComponent(p[0]);
      NameResolves(p[1..]);
      if |p| > 1 {
        ResolveSlash(p[0], NameOf(p[1..]));
      }
    }
  }

  lemma ContainsSelf(s: string)
    ensures Contains(s, s)
  {
  }

  lemma ContainsEmpty(s: string)
    ensures Contains(s, "")
  {
  }

  // ---------- both plans say the same of a path that contains the label ----------

  lemma {:induction false} LastWriteConcat(a: seq<Action>, b: seq<Action>, p: Path)
    ensures LastWrite(a + b, p) == if LastWrite(b, p).Some? then LastWrite(b, p) else LastWrite(a, p)
    decreases |b|
  {
    if b == [] {
      assert a + b == a;
    } else {
      assert (a + b)[..|a + b| - 1] == a + b[..|b| - 1];
      LastWriteConcat(a, b[..|b| - 1], p);
    }
  }

  lemma MakesDirConcat(a: seq<Action>, b: seq<Action>, p: Path)
    ensures MakesDir(a + b, p) <==> MakesDir(a, p) || MakesDir(b, p)
  {
    if MakesDir(a, p) {
      var i :| 0 <= i < |a| && Creates(a[i], p);
      assert Creates((a + b)[i], p);
    }
    if MakesDir(b, p) {
      var i :| 0 <= i < |b| && Creates(b[i], p);
      assert Creates((a + b)[|a| + i], p);
    }
  }

  /** Two lists of actions say the same of one path. */
  predicate Alike(a: seq<Action>, b: seq<Action>, p: Path) {
    LastWrite(a, p) == LastWrite(b, p) && (MakesDir(a, p) <==> MakesDir(b, p))
  }

  lemma AlikeConcat(a: seq<Action>, b: seq<Action>, c: seq<Action>, d: seq<Action>, p: Path)
    requires Alike(a, b, p) && Alike(c, d, p)
    ensures Alike(a + c, b + d, p)
  {
    LastWriteConcat(a, c, p);
    LastWriteConcat(b, d, p);
    MakesDirConcat(a, c, p);
    MakesDirConcat(b, d, p);
  }

  lemma EntryAlike(base: string, needle: string, e: Entry, r: Path)
    requires Canonical(e) && Contains(NameOf(r), needle)
    ensures Alike(EntryActions(base, needle, e), EntryActions(base, "", e), Resolve(base) + r)
  {
    ContainsEmpty(e.name);
    if OnPath(r, Resolve(e.name)) {
      LabelInherited(e, r, needle);
    } else if !Contains(e.name, needle) {
      SkippedEntry(base, needle, e, r);
    }
  }

  /** An entry that the filter skips has no part in a path it does not lead to. */
  lemma SkippedEntry(base: string, needle: string, e: Entry, r: Path)
    requires !Contains(e.name, needle) && !OnPath(r, Resolve(e.name))
    ensures Alike(EntryActions(base, needle, e), EntryActions(base, "", e), Resolve(base) + r)
  {
    var p := Resolve(base) + r;
    var few, all := EntryActions(base, needle, e), EntryActions(base, "", e);
    ContainsEmpty(e.name);
    ResolveSlash(base, e.name);
    OnPathShift(Resolve(base), r, Resolve(e.name));
    UntouchedByOne(few, p);
    UntouchedByOne(all, p);
  }

  lemma UntouchedByOne(acts: seq<Action>, p: Path)
    requires |acts| <= 1
    requires acts != [] && !acts[0].Halt? ==> !OnPath(p, acts[0].p)
    ensures LastWrite(acts, p) == None && !MakesDir(acts, p)
  {
    if acts != [] {
      assert acts[..|acts| - 1] == [];
      assert OnPath(p, p);
    }
  }

  lemma {:induction false} EntriesAlike(base: string, needle: string, es: seq<Entry>, r: Path)
    requires Contains(NameOf(r), needle)
    requires forall i :: 0 <= i < |es| ==> Canonical(es[i])
    ensures Alike(EntriesActions(base, needle, es), EntriesActions(base, "", es), Resolve(base) + r)
    decreases |es|
  {
    if es != [] {
      EntryAlike(base, needle, es[0], r);
      EntriesAlike(base, needle, es[1..], r);
      AlikeConcat(EntryActions(base, needle, es[0]), EntryActions(base, "", es[0]),
                  EntriesActions(base, needle, es[1..]), EntriesActions(base, "", es[1..]), Resolve(base) + r);
    }
  }

  lemma LayerAlike(fs: Files, dec: Decoder, from: string, base: string, needle: string, digest: string, r: Path)
    requires Contains(NameOf(r), needle)
    requires CanonicalLayers(fs, dec, from, [digest])
    ensures Alike(LayerActions(fs, dec, from, base, needle, digest),
                  LayerActions(fs, dec, from, base, "", digest), Resolve(base) + r)
  {
    var layer := ReadLayer(fs, dec, from, [digest][0]);
    if layer.Readable? && layer.blob.Archive? {
      var es := layer.blob.entries;
      EntriesAlike(base, needle, es, r);
      var tail := if layer.blob.endsWell then [] else [Halt(NextFailed)];
      AlikeConcat(EntriesActions(base, needle, es), EntriesActions(base, "", es), tail, tail, Resolve(base) + r);
    }
  }

  lemma {:induction false} PlanAlike(fs: Files, dec: Decoder, from: string, base: string, needle: string,
                                     digests: seq<string>, r: Path)
    requires Contains(NameOf(r), needle)
    requires CanonicalLayers(fs, dec, from, digests)
    ensures Alike(Plan(fs, dec, from, base, needle, digests), Plan(fs, dec, from, base, "", digests), Resolve(base) + r)
    decreases |digests|
  {
    if digests != [] {
      LayerAlike(fs, dec, from, base, needle, digests[0], r);
      PlanAlike(fs, dec, from, base, needle, digests[1..], r);
      AlikeConcat(LayerActions(fs, dec, from, base, needle, digests[0]), LayerActions(fs, dec, from, base, "", digests[0]),
                  Plan(fs, dec, from, base, needle, digests[1..]), Plan(fs, dec, from, base, "", digests[1..]),
                  Resolve(base) + r);
    }
  }

  /**
    Filter fusion: where both succeed, extracting with the filter and
    extracting everything agree on every path whose name contains the label.
  */
  lemma FilterFusion(fs: Files, dec: Decoder, from: string, base: string, needle: string, digests: seq<string>, r: Path)
    requires WellFormed(fs) && Apart(from, base)
    requires Contains(NameOf(r), needle)
    requires CanonicalLayers(fs, dec, from, digests)
    requires RunLayers(fs, dec, from, base, needle, digests).Ok()
    requires RunLayers(fs, dec, from, base, "", digests).Ok()
    ensures NodeAt(RunLayers(fs, dec, from, base, needle, digests).files, Resolve(base) + r) ==
            NodeAt(RunLayers(fs, dec, from, base, "", digests).files, Resolve(base) + r)
  {
    var p := Resolve(base) + r;
    LayersArePlan(fs, dec, from, base, needle, digests);
    LayersArePlan(fs, dec, from, base, "", digests);
    LastWriterWins(fs, Plan(fs, dec, from, base, needle, digests), p);
    LastWriterWins(fs, Plan(fs, dec, from, base, "", digests), p);
    PlanAlike(fs, dec, from, base, needle, digests, r);
  }

  // ---------- when the filter breaks an extraction that works without it ----------

  /** Neither halts nor breaks off. */
  predicate Sound(acts: seq<Action>) {
    forall i :: 0 <= i < |acts| ==> !acts[i].Halt? && (acts[i].Write? ==> acts[i].intact)
  }

  /** The filtered list asks for nothing that the full list does not ask for. */
  predicate Within(few: seq<Action>, all: seq<Action>) {
    Sound(all) ==> forall i :: 0 <= i < |few| ==> few[i] in all
  }

  lemma WithinConcat(a: seq<Action>, b: seq<Action>, c: seq<Action>, d: seq<Action>)
    requires Within(a, b) && Within(c, d)
    ensures Within(a + c, b + d)
  {
    if Sound(b + d) {
      assert forall i :: 0 <= i < |b| ==> (b + d)[i] == b[i];
      assert forall i :: 0 <= i < |d| ==> (b + d)[|b| + i] == d[i];
      forall i | 0 <= i < |a + c| ensures (a + c)[i] in b + d {
        if i < |a| {
          assert a[i] in b;
        } else {
          assert c[i - |a|] in d;
        }
      }
    }
  }

  lemma EntryWithin(base: string, needle: string, e: Entry)
    ensures Within(EntryActions(base, needle, e), EntryActions(base, "", e))
  {
    ContainsEmpty(e.name);
    var all := EntryActions(base, "", e);
    if e.kind.Regular? {
      assert Sound(all) ==> !all[0].Halt?;
    }
  }

  lemma {:induction false} EntriesWithin(base: string, needle: string, es: seq<Entry>)
    ensures Within(EntriesActions(base, needle, es), EntriesActions(base, "", es))
    decreases |es|
  {
    if es != [] {
      EntryWithin(base, needle, es[0]);
      EntriesWithin(base, needle, es[1..]);
      WithinConcat(EntryActions(base, needle, es[0]), EntryActions(base, "", es[0]),
                   EntriesActions(base, needle, es[1..]), EntriesActions(base, "", es[1..]));
    }
  }

  lemma LayerWithin(fs: Files, dec: Decoder, from: string, base: string, needle: string, digest: string)
    ensures Within(LayerActions(fs, dec, from, base, needle, digest), LayerActions(fs, dec, from, base, "", digest))
  {
    var layer := ReadLayer(fs, dec, from, digest);
    if layer.Readable? && layer.blob.Archive? {
      var es := layer.blob.entries;
      EntriesWithin(base, needle, es);
      var tail := if layer.blob.endsWell then [] else [Halt(NextFailed)];
      WithinConcat(EntriesActions(base, needle, es), EntriesActions(base, "", es), tail, tail);
    }
  }

  lemma {:induction false} PlanWithin(fs: Files, dec: Decoder, from: string, base: string, needle: string, digests: seq<string>)
    ensures Within(Plan(fs, dec, from, base, needle, digests), Plan(fs, dec, from, base, "", digests))
    decreases |digests|
  {
    if digests != [] {
      LayerWithin(fs, dec, from, base, needle, digests[0]);
      PlanWithin(fs, dec, from, base, needle, digests[1..]);
      WithinConcat(LayerActions(fs, dec, from, base, needle, digests[0]), LayerActions(fs, dec, from, base, "", digests[0]),
                   Plan(fs, dec, from, base, needle, digests[1..]), Plan(fs, dec, from, base, "", digests[1..]));
    }
  }

  /** Every written file's parent is there before, or made by an earlier action of the same list. */
  predicate ParentsKept(fs: Files, acts: seq<Action>) {
    forall i :: 0 <= i < |acts| && acts[i].Write? && acts[i].p != [] ==>
      IsDir(fs, Parent(acts[i].p)) || MakesDir(acts[..i], Parent(acts[i].p))
  }

  /** A part of a feasible list is feasible exactly if it kept the parents it needs. */
  lemma FeasiblePart(fs: Files, few: seq<Action>, all: seq<Action>)
    requires Within(few, all) && Feasible(fs, all)
    ensures Feasible(fs, few) <==> ParentsKept(fs, few)
  {
    forall i | 0 <= i < |all| ensures !all[i].Halt? && (all[i].Write? ==> all[i].intact) {
      assert FeasibleAt(fs, all, i);
    }
    forall i | 0 <= i < |few|
      ensures FeasibleAt(fs, few, i) <==>
              (few[i].Write? && few[i].p != [] ==> IsDir(fs, Parent(few[i].p)) || MakesDir(few[..i], Parent(few[i].p)))
    {
      assert few[i] in all;
      var j :| 0 <= j < |all| && all[j] == few[i];
      assert FeasibleAt(fs, all, j);
      if few[i].Write? && MakesDir(few, few[i].p) {
        PartMakesDir(few, all, few[i].p);
      }
    }
    if Feasible(fs, few) {
      assert forall i :: 0 <= i < |few| ==> FeasibleAt(fs, few, i);
    }
  }

  lemma PartMakesDir(few: seq<Action>, all: seq<Action>, p: Path)
    requires Within(few, all) && Sound(all)
    ensures MakesDir(few, p) ==> MakesDir(all, p)
  {
    if MakesDir(few, p) {
      var i :| 0 <= i < |few| && Creates(few[i], p);
      assert few[i] in all;
      var j :| 0 <= j < |all| && all[j] == few[i];
      assert Creates(all[j], p);
    }
  }

  /**
    Where extracting everything succeeds, extracting with the filter succeeds
    if and only if every kept file still finds its parent directory: the filter
    may have dropped the entry that made it.
  */
  lemma FilterSucceedsExactly(fs: Files, dec: Decoder, from: string, base: string, needle: string, digests: seq<string>)
    requires WellFormed(fs) && Apart(from, base)
    requires RunLayers(fs, dec, from, base, "", digests).Ok()
    ensures RunLayers(fs, dec, from, base, needle, digests).Ok() <==>
            ParentsKept(fs, Plan(fs, dec, from, base, needle, digests))
  {
    var few, all := Plan(fs, dec, from, base, needle, digests), Plan(fs, dec, from, base, "", digests);
    LayersArePlan(fs, dec, from, base, needle, digests);
    LayersArePlan(fs, dec, from, base, "", digests);
    SuccessExact(fs, few);
    SuccessExact(fs, all);
    PlanWithin(fs, dec, from, base, needle, digests);
    FeasiblePart(fs, few, all);
  }

  /**
    Archives that extract on their own but not with the filter: a directory
    whose name does not contain the label, and a file in it named by the label.
  */
  lemma FilterCanFail(base: string, x: string, needle: string)
    requires IsComponent(x) && IsComponent(needle) && !Contains(x + "/", needle)
    ensures var es := [Entry(x + "/", Directory), Entry(x + "/" + needle, Regular("", true))];
            && Run(map[], EntriesActions(base, "", es)).Ok()
            && Run(map[], EntriesActions(base, needle, es)) == Result(map[], Some(CreateFailed))
  {
    var dir, file := Entry(x + "/", Directory), Entry(x + "/" + needle, Regular("", true));
    var d := Resolve(base) + [x];
    var f := d + [needle];
    ExampleActions(base, x, needle);
    TwoEntries(base, needle, dir, file);
    TwoEntries(base, "", dir, file);
    RunOne(map[], Write(f, "", true));
    assert Parent(f) == d && d != [];
    MakeAllExact(map[], d);
    var made := MakeAll(map[], d).value;
    assert OnPath(d, d) && !OnPath(f, d);
    assert CanCreate(made, f);
    assert [Mkdir(d), Write(f, "", true)][1..] == [Write(f, "", true)];
    RunOne(made, Write(f, "", true));
  }

  lemma TwoEntries(base: string, needle: string, a: Entry, b: Entry)
    ensures EntriesActions(base, needle, [a, b]) == EntryActions(base, needle, a) + EntryActions(base, needle, b)
  {
    assert [a, b][1..] == [b] && [b][1..] == [];
    assert EntriesActions(base, needle, [b]) == EntryActions(base, needle, b) + [];
  }

  lemma ExampleActions(base: string, x: string, needle: string)
    requires IsComponent(x) && IsComponent(needle) && !Contains(x + "/", needle)
    ensures var dir, file := Entry(x + "/", Directory), Entry(x + "/" + needle, Regular("", true));
            var d := Resolve(base) + [x];
            && EntryActions(base, needle, dir) == [] && EntryActions(base, "", dir) == [Mkdir(d)]
            && EntryActions(base, needle, file) == [Write(d + [needle], "", true)] == EntryActions(base, "", file)
  {
    ExampleNames(base, x, needle);
    ContainsEmpty(x + "/");
    ContainsEmpty(x + "/" + needle);
    ContainsSelf(needle);
    ContainsInside(x + "/", needle, "", needle);
    assert (x + "/") + needle + "" == x + "/" + needle;
  }

  lemma ExampleNames(base: string, x: string, needle: string)
    requires IsComponent(x) && IsComponent(needle)
    ensures Resolve(base + "/" + (x + "/")) == Resolve(base) + [x]
    ensures Resolve(base + "/" + (x + "/" + needle)) == Resolve(base) + [x] + [needle]
    ensures x + "/" != "./" && !DirectoryName(base + "/" + (x + "/" + needle))
  {
    assert Resolve(base + "/" + (x + "/")) == Resolve(base) + [x] by {
      ResolveComponent(x);
      ResolveSlash(base, x + "/");
      ResolveSlash(x, "");
      assert x + "/" + "" == x + "/";
      assert Split("", "/") == [""] && Clean([""]) == [];
    }
    assert Resolve(base + "/" + (x + "/" + needle)) == Resolve(base) + [x] + [needle] by {
      ResolveComponent(x);
      ResolveComponent(needle);
      ResolveSlash(base, x + "/" + needle);
      ResolveSlash(x, needle);
    }
    assert (x + "/")[..|x|] == x && "./"[..1] == ".";
    FileName(base + "/" + (x + "/"), needle);
    assert base + "/" + (x + "/" + needle) == base + "/" + (x + "/") + needle;
  }

  /** A name that ends in a proper component can be a file's. */
  lemma FileName(before: string, needle: string)
    requires IsComponent(needle) && before != "" && before[|before| - 1] == '/' && |before| > 1
    ensures !DirectoryName(before + needle)
  {
    var name := before + needle;
    assert name[|name| - 1] == needle[|needle| - 1];
    assert name[|name| - |needle|..] == needle;
    assert |needle| > 1 ==> name[|name| - 2] == needle[|needle| - 2];
    assert name[|name| - 2..] == [name[|name| - 2], name[|name| - 1]];
    assert |needle| == 1 ==> needle == [needle[0]];
  }
}
