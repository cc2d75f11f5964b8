/**
  The part of a file system that the code uses: paths, directories and files,
  with the outcomes of os.Stat, os.MkdirAll, os.Create, os.ReadFile and
  os.ReadDir.  Path names are resolved as the kernel does: repeated slashes and
  "." components mean nothing.  The root, the empty path, is a directory.
*/
module FileTree {
  import opened Wrappers
  import opened Text

  type Path = seq<string>

  datatype Node = Dir | File(data: string)

  type Files = map<Path, Node>

  // ---------- path names ----------

  function Clean(parts: seq<string>): Path {
    if parts == [] then []
    else if parts[0] == "" || parts[0] == "." then Clean(parts[1..])
    else [parts[0]] + Clean(parts[1..])
  }

  function Resolve(name: string): Path {
    Clean(Split(name, "/"))
  }

  lemma {:induction false} CleanConcat(a: seq<string>, b: seq<string>)
    ensures Clean(a + b) == Clean(a) + Clean(b)
  {
    if a == [] {
      assert a + b == b;
    } else {
      assert (a + b)[1..] == a[1..] + b;
      CleanConcat(a[1..], b);
    }
  }

  /** Joining names with a slash resolves to the concatenation of their paths. */
  lemma ResolveSlash(a: string, b: string)
    ensures Resolve(a + "/" + b) == Resolve(a) + Resolve(b)
  {
    SplitAt(a, b, '/');
    CleanConcat(Split(a, "/"), Split(b, "/"));
  }

  /** A file or directory name as it stands between two slashes. */
  predicate IsComponent(s: string) {
    s != "" && s != "." && '/' !in s
  }

  /** A proper component resolves to itself. */
  lemma ResolveComponent(s: string)
    requires IsComponent(s)
    ensures Resolve(s) == [s]
  {
    SplitWithout(s, '/');
    assert Clean([]) == [];
    assert [s][1..] == [];
  }

  // ---------- looking up ----------

  function NodeAt(fs: Files, p: Path): Option<Node> {
    if p == [] then Some(Dir) else if p in fs then Some(fs[p]) else None
  }

  predicate IsDir(fs: Files, p: Path) {
    NodeAt(fs, p) == Some(Dir)
  }

  predicate IsFile(fs: Files, p: Path) {
    NodeAt(fs, p).Some? && NodeAt(fs, p).value.File?
  }

  function Parent(p: Path): Path
    requires p != []
  {
    p[..|p| - 1]
  }

  /** `q` is `p` or one of its ancestors. */
  predicate OnPath(q: Path, p: Path) {
    q <= p
  }

  /** Two paths on the way to a third lie on one line. */
  lemma OnOneLine(a: Path, b: Path, p: Path)
    ensures OnPath(a, p) && OnPath(b, p) ==> OnPath(a, b) || OnPath(b, a)
  {
    if OnPath(a, p) && OnPath(b, p) {
      if |a| <= |b| {
        assert b[..|a|] == p[..|a|] == a;
      } else {
        assert a[..|b|] == p[..|b|] == b;
      }
    }
  }

  lemma OnPathTransitive(a: Path, b: Path, c: Path)
    ensures OnPath(a, b) && OnPath(b, c) ==> OnPath(a, c)
  {
    if OnPath(a, b) && OnPath(b, c) {
      assert c[..|a|] == b[..|a|];
    }
  }

  /** A common beginning does not matter. */
  lemma OnPathShift(h: Path, k: Path, l: Path)
    ensures OnPath(h + k, h + l) <==> OnPath(k, l)
  {
    if |k| <= |l| {
      var n := |h| + |k|;
      assert (h + l)[..n] == h + l[..|k|];
      assert (h + k)[|h|..] == k && (h + l[..|k|])[|h|..] == l[..|k|];
    }
  }

  /** Two paths that differ in a component both have are not on one line. */
  lemma Fork(d: Path, a: string, b: string, x: Path, y: Path)
    requires a != b
    ensures !OnPath(d + [a] + x, d + [b] + y)
  {
    var p, q := d + [a] + x, d + [b] + y;
    assert p[|d|] == a && q[|d|] == b;
  }

  lemma OnPathStep(p: Path)
    requires p != []
    ensures forall q :: OnPath(q, p) <==> q == p || OnPath(q, Parent(p))
  {
    forall q ensures OnPath(q, p) <==> q == p || OnPath(q, Parent(p)) {
      if OnPath(q, p) && q != p {
        assert q == Parent(p)[..|q|];
      }
    }
  }

  /** Every present path's parent is a directory, and the root is never stored. */
  ghost predicate WellFormed(fs: Files) {
    [] !in fs && forall p :: p in fs ==> p != [] && IsDir(fs, Parent(p))
  }

  /** A well-formed tree is determined by what it holds at each path. */
  lemma SameFiles(a: Files, b: Files)
    requires WellFormed(a) && WellFormed(b)
    requires forall p :: NodeAt(a, p) == NodeAt(b, p)
    ensures a == b
  {
    forall p | p in a ensures p in b && a[p] == b[p] {
      assert NodeAt(a, p) == NodeAt(b, p);
    }
    forall p | p in b ensures p in a {
      assert NodeAt(a, p) == NodeAt(b, p);
    }
  }

  lemma {:induction false} AncestorIsDir(fs: Files, p: Path, q: Path)
    requires WellFormed(fs) && NodeAt(fs, p).Some?
    requires OnPath(q, p) && q != p
    ensures IsDir(fs, q)
    decreases |p|
  {
    var up := Parent(p);
    assert IsDir(fs, up);
    if q != up {
      AncestorIsDir(fs, up, q);
    }
  }

  /**
    os.Stat reports "does not exist".  Below a regular file it reports "not a
    directory", which is a different error.
  */
  predicate Missing(fs: Files, p: Path)
    decreases |p|
  {
    p != [] && p !in fs && (IsDir(fs, Parent(p)) || Missing(fs, Parent(p)))
  }

  /** A path does not exist exactly if nothing is there and no regular file is above it. */
  lemma {:induction false} MissingExact(fs: Files, p: Path)
    requires WellFormed(fs)
    ensures Missing(fs, p) <==> NodeAt(fs, p).None? && forall q :: OnPath(q, p) ==> !IsFile(fs, q)
    decreases |p|
  {
    if p != [] {
      var up := Parent(p);
      MissingExact(fs, up);
      OnPathStep(p);
      if IsDir(fs, up) {
        forall q | OnPath(q, up) ensures !IsFile(fs, q) {
          if q != up {
            AncestorIsDir(fs, up, q);
          }
        }
      } else {
        assert NodeAt(fs, up).None? || IsFile(fs, up);
      }
    }
  }

  // ---------- os.MkdirAll ----------

  function MakeAll(fs: Files, p: Path): Option<Files>
    decreases |p|
  {
    if p == [] then Some(fs)
    else if p in fs then (if fs[p].Dir? then Some(fs) else None)
    else match MakeAll(fs, Parent(p))
      case None => None
      case Some(up) => Some(up[p := Dir])
  }

  /**
    MkdirAll succeeds exactly if no regular file is on the way, and then makes
    the path and all its ancestors directories and changes nothing else.
  */
  lemma {:induction false} MakeAllExact(fs: Files, p: Path)
    requires WellFormed(fs)
    ensures MakeAll(fs, p).Some? <==> forall q :: OnPath(q, p) ==> !IsFile(fs, q)
    ensures MakeAll(fs, p).Some? ==>
              && WellFormed(MakeAll(fs, p).value)
              && forall q :: NodeAt(MakeAll(fs, p).value, q) == if OnPath(q, p) then Some(Dir) else NodeAt(fs, q)
    decreases |p|
  {
    if NodeAt(fs, p).Some? {
      assert OnPath(p, p);
      forall q | OnPath(q, p) && q != p ensures IsDir(fs, q) {
        AncestorIsDir(fs, p, q);
      }
    } else {
      var up := Parent(p);
      MakeAllExact(fs, up);
      OnPathStep(p);
      if MakeAll(fs, up).Some? {
        AddDir(MakeAll(fs, up).value, p);
      }
    }
  }

  /** The tree that MkdirAll leaves, known by what it holds at each path. */
  lemma MadeAll(fs: Files, p: Path, after: Files)
    requires WellFormed(fs) && WellFormed(after)
    requires var ok := forall q :: OnPath(q, p) ==> !IsFile(fs, q);
             forall q :: NodeAt(after, q) == if ok && OnPath(q, p) then Some(Dir) else NodeAt(fs, q)
    ensures after == if MakeAll(fs, p).Some? then MakeAll(fs, p).value else fs
    ensures MakeAll(fs, p).Some? <==> forall q :: OnPath(q, p) ==> !IsFile(fs, q)
  {
    MakeAllExact(fs, p);
    SameFiles(after, if MakeAll(fs, p).Some? then MakeAll(fs, p).value else fs);
  }

  lemma AddDir(fs: Files, p: Path)
    requires WellFormed(fs) && p != [] && IsDir(fs, Parent(p)) && !IsFile(fs, p)
    ensures WellFormed(fs[p := Dir])
    ensures forall q :: NodeAt(fs[p := Dir], q) == if q == p then Some(Dir) else NodeAt(fs, q)
  {
  }

  // ---------- what is missing below a missing path ----------

  lemma NothingBelowMissing(fs: Files, p: Path, q: Path)
    requires WellFormed(fs) && Missing(fs, p) && OnPath(p, q)
    ensures NodeAt(fs, q).None?
  {
    MissingExact(fs, p);
    if NodeAt(fs, q).Some? && q != p {
      AncestorIsDir(fs, q, p);
    }
  }

  lemma MissingBelow(fs: Files, p: Path, q: Path)
    requires WellFormed(fs) && Missing(fs, p) && OnPath(p, q)
    ensures Missing(fs, q)
  {
    MissingExact(fs, p);
    MissingExact(fs, q);
    NothingBelowMissing(fs, p, q);
    forall r | OnPath(r, q) ensures !IsFile(fs, r) {
      OnOneLine(r, p, q);
      if OnPath(p, r) {
        NothingBelowMissing(fs, p, r);
      }
    }
  }

  /** The tree that holds one directory and its ancestors. */
  lemma OneDirectory(p: Path) returns (fs: Files)
    ensures WellFormed(fs)
    ensures forall q :: NodeAt(fs, q) == if OnPath(q, p) then Some(Dir) else None
  {
    var empty: Files := map[];
    MakeAllExact(empty, p);
    fs := MakeAll(empty, p).value;
  }

  lemma MissingInOneDirectory(fs: Files, p: Path, q: Path)
    requires WellFormed(fs) && forall r :: NodeAt(fs, r) == if OnPath(r, q) then Some(Dir) else None
    ensures Missing(fs, p) <==> !OnPath(p, q)
  {
    MissingExact(fs, p);
  }

  /** One path's absence implies another's, in every tree, exactly if it lies on the way to it. */
  lemma MissingForced(p: Path, q: Path)
    ensures (forall fs :: WellFormed(fs) && Missing(fs, p) ==> Missing(fs, q)) <==> OnPath(p, q)
  {
    forall fs | WellFormed(fs) && Missing(fs, p) && OnPath(p, q) ensures Missing(fs, q) {
      MissingBelow(fs, p, q);
    }
    var fs := OneDirectory(q);
    MissingInOneDirectory(fs, p, q);
    MissingInOneDirectory(fs, q, q);
    assert OnPath(q, q);
  }

  /** A directory implies that a path is not missing, in every tree, exactly if the path is on the way to it. */
  lemma PresentForced(p: Path, q: Path)
    ensures (forall fs :: WellFormed(fs) && IsDir(fs, q) ==> !Missing(fs, p)) <==> OnPath(p, q)
  {
    forall fs | WellFormed(fs) && IsDir(fs, q) && OnPath(p, q) ensures !Missing(fs, p) {
      if Missing(fs, p) {
        NothingBelowMissing(fs, p, q);
      }
    }
    var fs := OneDirectory(q);
    MissingInOneDirectory(fs, p, q);
    assert OnPath(q, q) && IsDir(fs, q);
  }

  // ---------- os.Create ----------

  /** A name that can only denote a directory, on which os.Create fails. */
  predicate DirectoryName(name: string) {
    name != "" && (name[|name| - 1] == '/' || name == "." || (|name| > 1 && name[|name| - 2..] == "/."))
  }

  /** Opening a path for writing works on a new or regular file in an existing directory. */
  predicate CanCreate(fs: Files, p: Path) {
    p != [] && IsDir(fs, Parent(p)) && !IsDir(fs, p)
  }

  lemma WriteWellFormed(fs: Files, p: Path, data: string)
    requires WellFormed(fs) && CanCreate(fs, p)
    ensures WellFormed(fs[p := File(data)])
    ensures forall q :: NodeAt(fs[p := File(data)], q) == if q == p then Some(File(data)) else NodeAt(fs, q)
  {
    var next := fs[p := File(data)];
    forall q | q in next ensures q != [] && IsDir(next, Parent(q)) {
      assert IsDir(fs, Parent(q));
    }
  }

  // ---------- replacing what is below a directory ----------

  /** `p` without the prefix `dir`. */
  function Below(dir: Path, p: Path): Path
    requires OnPath(dir, p)
  {
    p[|dir|..]
  }

  function Placed(dir: Path, content: Files): (paths: set<Path>)
    ensures forall p :: p in paths <==> OnPath(dir, p) && Below(dir, p) in content
  {
    var paths := set q | q in content :: dir + q;
    assert forall q :: Below(dir, dir + q) == q;
    assert forall p :: OnPath(dir, p) ==> p == dir + Below(dir, p);
    paths
  }

  function Graft(fs: Files, dir: Path, content: Files): Files {
    (map p | p in fs && !(OnPath(dir, p) && p != dir) :: fs[p])
    + (map p | p in Placed(dir, content) :: content[Below(dir, p)])
  }

  lemma GraftAt(fs: Files, dir: Path, content: Files, p: Path)
    requires WellFormed(content) && IsDir(fs, dir)
    ensures NodeAt(Graft(fs, dir, content), p) ==
            if OnPath(dir, p) then NodeAt(content, Below(dir, p)) else NodeAt(fs, p)
  {
    if OnPath(dir, p) {
      assert p == dir <==> Below(dir, p) == [];
    }
  }

  lemma GraftExact(fs: Files, dir: Path, content: Files)
    requires WellFormed(fs) && WellFormed(content) && IsDir(fs, dir)
    ensures WellFormed(Graft(fs, dir, content))
    ensures forall p :: NodeAt(Graft(fs, dir, content), p) ==
                        if OnPath(dir, p) then NodeAt(content, Below(dir, p)) else NodeAt(fs, p)
  {
    var next := Graft(fs, dir, content);
    forall p ensures NodeAt(next, p) == if OnPath(dir, p) then NodeAt(content, Below(dir, p)) else NodeAt(fs, p) {
      GraftAt(fs, dir, content, p);
    }
    assert [] !in next by {
      assert OnPath(dir, []) ==> Below(dir, []) == [];
    }
    forall p | p in next ensures p != [] && IsDir(next, Parent(p)) {
      OnPathStep(p);
      assert NodeAt(next, p).Some?;
      if OnPath(dir, p) && p != dir {
        var q := Below(dir, p);
        assert q in content && Below(dir, Parent(p)) == Parent(q);
      } else {
        assert NodeAt(fs, p).Some?;
        assert IsDir(fs, Parent(p));
      }
    }
  }

  // ---------- os.ReadFile, os.ReadDir ----------

  function ReadFile(fs: Files, p: Path): Option<string> {
    if IsFile(fs, p) then Some(NodeAt(fs, p).value.data) else None
  }

  function Children(fs: Files, p: Path): (names: set<string>)
    ensures forall name :: name in names <==> p + [name] in fs
  {
    var kids := set q | q in fs && |q| == |p| + 1 && p <= q;
    assert forall name :: p + [name] in fs ==> p + [name] in kids;
    assert forall q :: q in kids ==> q == p + [q[|p|]];
    set q | q in kids :: q[|p|]
  }

  /** Names are listed in the order of their characters. */
  predicate Before(a: string, b: string) {
    b != "" && (a == "" || a[0] < b[0] || (a[0] == b[0] && Before(a[1..], b[1..])))
  }

  lemma {:induction false} BeforeOrder(a: string, b: string)
    ensures !Before(a, a)
    ensures !(Before(a, b) && Before(b, a))
    ensures Before(a, b) || a == b || Before(b, a)
    decreases |a|
  {
    if a != "" {
      BeforeOrder(a[1..], if b == "" then b else b[1..]);
      if b != "" {
        assert a == [a[0]] + a[1..] && b == [b[0]] + b[1..];
      }
    }
  }

  lemma {:induction false} BeforeTransitive(a: string, b: string, c: string)
    requires Before(a, b) && Before(b, c)
    ensures Before(a, c)
    decreases |a|
  {
    if a != "" && a[0] == b[0] && b[0] == c[0] {
      BeforeTransitive(a[1..], b[1..], c[1..]);
    }
  }

  predicate IsFirst(names: set<string>, x: string) {
    x in names && forall y :: y in names && y != x ==> Before(x, y)
  }

  lemma {:induction false} FirstExists(names: set<string>) returns (x: string)
    requires names != {}
    ensures IsFirst(names, x)
    decreases names
  {
    x :| x in names;
    var rest := names - {x};
    if rest != {} {
      var y := FirstExists(rest);
      BeforeOrder(x, y);
      if Before(y, x) {
        x := y;
      } else {
        forall z | z in rest && z != y ensures Before(x, z) {
          BeforeTransitive(x, y, z);
        }
      }
    }
    assert forall z :: z in names <==> z in rest || names == rest + {z};
  }

  lemma FirstUnique(names: set<string>)
    ensures forall x, y :: IsFirst(names, x) && IsFirst(names, y) ==> x == y
  {
    forall x, y | IsFirst(names, x) && IsFirst(names, y) ensures x == y {
      BeforeOrder(x, y);
    }
  }

  predicate Sorted(names: seq<string>) {
    forall i, j :: 0 <= i < j < |names| ==> Before(names[i], names[j])
  }

  function SortNames(names: set<string>): (r: seq<string>)
    ensures Sorted(r)
    ensures forall x :: x in r <==> x in names
    decreases names
  {
    if names == {} then []
    else
      assert exists x :: IsFirst(names, x) by { var x := FirstExists(names); }
      FirstUnique(names);
      var x :| IsFirst(names, x);
      [x] + SortNames(names - {x})
  }

  /** The entries of a directory, sorted by name; an error if it is not a directory. */
  function ReadDir(fs: Files, p: Path): (r: Option<seq<string>>)
    ensures r.Some? <==> IsDir(fs, p)
    ensures r.Some? ==> Sorted(r.value) && forall name :: name in r.value <==> p + [name] in fs
  {
    if IsDir(fs, p) then Some(SortNames(Children(fs, p))) else None
  }

  // ---------- the order of names ----------

  predicate DiffersAt(a: string, b: string, i: int) {
    0 <= i < |a| && i < |b| && a[..i] == b[..i] && a[i] < b[i]
  }

  predicate Differs(a: string, b: string) {
    exists i :: 0 <= i < |a| && DiffersAt(a, b, i)
  }

  lemma DiffersLater(a: string, b: string, i: nat)
    requires a != "" && b != "" && a[0] == b[0]
    ensures DiffersAt(a, b, i + 1) <==> DiffersAt(a[1..], b[1..], i)
    ensures !DiffersAt(a, b, 0)
  {
    if i + 1 < |a| && i + 1 < |b| {
      assert a[..i + 1] == [a[0]] + a[1..][..i] && b[..i + 1] == [b[0]] + b[1..][..i];
    }
  }

  lemma SameStart(a: string, b: string)
    requires a != "" && b != "" && a[0] == b[0]
    ensures Differs(a, b) <==> Differs(a[1..], b[1..])
    ensures a < b <==> a[1..] < b[1..]
  {
    assert a == [a[0]] + a[1..] && b == [b[0]] + b[1..];
    forall i: nat ensures DiffersAt(a, b, i + 1) <==> DiffersAt(a[1..], b[1..], i) {
      DiffersLater(a, b, i);
    }
    if Differs(a, b) {
      var i :| 0 <= i < |a| && DiffersAt(a, b, i);
      DiffersLater(a, b, 0);
      assert DiffersAt(a[1..], b[1..], i - 1);
    }
    if Differs(a[1..], b[1..]) {
      var i :| 0 <= i < |a[1..]| && DiffersAt(a[1..], b[1..], i);
      assert DiffersAt(a, b, i + 1);
    }
  }

  lemma OtherStart(a: string, b: string)
    requires a != "" && b != "" && a[0] != b[0]
    ensures !(a < b) && (Differs(a, b) <==> a[0] < b[0])
  {
    assert a[..0] == b[..0];
    if a[0] < b[0] {
      assert DiffersAt(a, b, 0);
    }
    forall i | 0 < i < |a| ensures !DiffersAt(a, b, i) {
      assert a[..i][0] == a[0];
      assert i < |b| ==> b[..i][0] == b[0];
    }
  }

  lemma {:induction false} BeforeDiffers(a: string, b: string)
    ensures Before(a, b) <==> a < b || Differs(a, b)
    decreases |a|
  {
    if a != "" && b != "" {
      if a[0] == b[0] {
        BeforeDiffers(a[1..], b[1..]);
        SameStart(a, b);
      } else {
        OtherStart(a, b);
      }
    }
  }

  /**
    A name comes before another exactly if it is a proper beginning of it, or
    has the smaller character where they first differ.
  */
  lemma BeforeExactly(a: string, b: string)
    ensures Before(a, b) <==>
            a < b || exists i :: 0 <= i < |a| && i < |b| && a[..i] == b[..i] && a[i] < b[i]
  {
    BeforeDiffers(a, b);
    assert forall i :: 0 <= i < |a| ==> (DiffersAt(a, b, i) <==> i < |b| && a[..i] == b[..i] && a[i] < b[i]);
    if i :| 0 <= i < |a| && i < |b| && a[..i] == b[..i] && a[i] < b[i] {
      assert DiffersAt(a, b, i);
    }
  }

  /**
    What os.ReadDir returns: the names of the children, each once, in ascending
    order, a proper beginning before the longer name and otherwise by the first
    character that differs.
  */
  lemma ReadDirExactly(fs: Files, p: Path)
    ensures ReadDir(fs, p).Some? <==> NodeAt(fs, p) == Some(Dir)
    ensures ReadDir(fs, p).Some? ==>
              var names := ReadDir(fs, p).value;
              && (forall name :: name in names <==> p + [name] in fs)
              && forall i, j :: 0 <= i < j < |names| ==>
                   names[i] < names[j] ||
                   exists k :: 0 <= k < |names[i]| && k < |names[j]| && names[i][..k] == names[j][..k] && names[i][k] < names[j][k]
  {
    if ReadDir(fs, p).Some? {
      SortedExactly(ReadDir(fs, p).value);
    }
  }

  lemma SortedExactly(names: seq<string>)
    ensures Sorted(names) <==>
            forall i, j :: 0 <= i < j < |names| ==>
              names[i] < names[j] ||
              exists k :: 0 <= k < |names[i]| && k < |names[j]| && names[i][..k] == names[j][..k] && names[i][k] < names[j][k]
  {
    forall i, j | 0 <= i < j < |names|
      ensures Before(names[i], names[j]) <==>
              names[i] < names[j] ||
              exists k :: 0 <= k < |names[i]| && k < |names[j]| && names[i][..k] == names[j][..k] && names[i][k] < names[j][k]
    {
      BeforeExactly(names[i], names[j]);
    }
  }

  // ---------- names of directories ----------

  /** A name can only be a directory's exactly if it is not empty and its last part is empty or a dot. */
  lemma DirectoryNameExactly(parent: string, last: string)
    requires '/' !in last
    ensures DirectoryName(parent + "/" + last) <==> last == "" || last == "."
    ensures DirectoryName(last) <==> last == "."
  {
    var name := parent + "/" + last;
    if last == "" {
      assert name[|name| - 1] == '/';
    } else {
      assert name[|name| - 1] == last[|last| - 1];
      assert |last| > 1 ==> name[|name| - 2] == last[|last| - 2];
      assert |last| == 1 ==> name[|name| - 2] == '/' && last == [last[0]];
      assert name[|name| - 2..] == [name[|name| - 2], name[|name| - 1]];
      assert |last| > 1 ==> last[|last| - 2..] == [last[|last| - 2], last[|last| - 1]];
    }
  }
}
