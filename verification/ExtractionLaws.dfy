/**
  What an extraction does to the tree: when it succeeds, what it leaves, and
  what a second one changes.  Stated for the list of actions that the layers
  ask for, in (layer, position) order.
*/
module ExtractionLaws {
  import opened Wrappers
  import opened FileTree
  import opened Extraction

  // ---------- last writer wins ----------

  /** The data of the last action that writes `p`. */
  function LastWrite(acts: seq<Action>, p: Path): Option<string> {
    if acts == [] then None
    else
      var last := acts[|acts| - 1];
      if last.Write? && last.p == p then Some(last.data) else LastWrite(acts[..|acts| - 1], p)
  }

  predicate Creates(a: Action, p: Path) {
    a.Mkdir? && OnPath(p, a.p)
  }

  /** Some action makes `p` a directory, as its own path or as an ancestor. */
  predicate MakesDir(acts: seq<Action>, p: Path) {
    exists i :: 0 <= i < |acts| && Creates(acts[i], p)
  }

  function Outcome(fs: Files, acts: seq<Action>, p: Path): Option<Node> {
    if LastWrite(acts, p).Some? then Some(File(LastWrite(acts, p).value))
    else if MakesDir(acts, p) then Some(Dir)
    else NodeAt(fs, p)
  }

  lemma RunLast(fs: Files, acts: seq<Action>)
    requires acts != []
    ensures var before := Run(fs, acts[..|acts| - 1]);
            Run(fs, acts) == if before.Ok() then Perform(before.files, acts[|acts| - 1]) else before
  {
    var n := |acts| - 1;
    assert acts[..n] + [acts[n]] == acts;
    RunConcat(fs, acts[..n], [acts[n]]);
    if Run(fs, acts[..n]).Ok() {
      RunOne(Run(fs, acts[..n]).files, acts[n]);
    }
  }

  lemma MakesDirLast(acts: seq<Action>, p: Path)
    requires acts != []
    ensures MakesDir(acts, p) <==> MakesDir(acts[..|acts| - 1], p) || Creates(acts[|acts| - 1], p)
  {
  }

  /** One successful action, seen at one path. */
  lemma PerformAt(fs: Files, a: Action, q: Path)
    requires WellFormed(fs) && Perform(fs, a).Ok()
    ensures NodeAt(Perform(fs, a).files, q) ==
            if a.Write? && a.p == q then Some(File(a.data))
            else if Creates(a, q) then Some(Dir)
            else NodeAt(fs, q)
    ensures Creates(a, q) ==> !IsFile(fs, q)
  {
    match a
    case Mkdir(p) => MakeAllExact(fs, p);
    case Write(p, data, _) => WriteWellFormed(fs, p, data);
    case Halt(_) =>
  }

  /**
    After a successful run a written path holds the bytes of its last writer,
    directories asked for and their ancestors exist, and every other path is
    as it was.
  */
  lemma {:induction false} LastWriterWins(fs: Files, acts: seq<Action>, p: Path)
    requires WellFormed(fs) && Run(fs, acts).Ok()
    ensures NodeAt(Run(fs, acts).files, p) == Outcome(fs, acts, p)
    decreases |acts|
  {
    if acts != [] {
      var init, last := acts[..|acts| - 1], acts[|acts| - 1];
      RunLast(fs, acts);
      RunWellFormed(fs, init);
      LastWriterWins(fs, init, p);
      MakesDirLast(acts, p);
      PerformAt(Run(fs, init).files, last, p);
    }
  }

  // ---------- the exact success condition ----------

  /** What action i needs, said of the tree before the whole run and of the other actions. */
  ghost predicate FeasibleAt(fs: Files, acts: seq<Action>, i: nat)
    requires i < |acts|
  {
    match acts[i]
    case Halt(_) => false
    case Mkdir(p) => forall q :: OnPath(q, p) ==> !IsFile(fs, q)
    case Write(p, _, intact) =>
      && intact && p != [] && !IsDir(fs, p) && !MakesDir(acts, p)
      && (IsDir(fs, Parent(p)) || MakesDir(acts[..i], Parent(p)))
  }

  ghost predicate Feasible(fs: Files, acts: seq<Action>) {
    forall i :: 0 <= i < |acts| ==> FeasibleAt(fs, acts, i)
  }

  /** Adding one action to a feasible list. */
  lemma FeasibleLast(fs: Files, acts: seq<Action>)
    requires acts != []
    ensures var init, n := acts[..|acts| - 1], |acts| - 1;
            Feasible(fs, acts) <==>
            Feasible(fs, init) && FeasibleAt(fs, acts, n)
            && (forall j :: 0 <= j < n && acts[j].Write? ==> !Creates(acts[n], acts[j].p))
  {
    var init, n := acts[..|acts| - 1], |acts| - 1;
    forall j | 0 <= j < n
      ensures FeasibleAt(fs, acts, j) <==>
              FeasibleAt(fs, init, j) && (acts[j].Write? ==> !Creates(acts[n], acts[j].p))
    {
      assert init[j] == acts[j] && init[..j] == acts[..j];
      if acts[j].Write? {
        MakesDirLast(acts, acts[j].p);
      }
    }
    if Feasible(fs, acts) {
      forall j | 0 <= j < n ensures FeasibleAt(fs, init, j) && (acts[j].Write? ==> !Creates(acts[n], acts[j].p)) {
        assert FeasibleAt(fs, acts, j);
      }
    }
    if Feasible(fs, init) && FeasibleAt(fs, acts, n)
       && (forall j :: 0 <= j < n && acts[j].Write? ==> !Creates(acts[n], acts[j].p)) {
      forall j | 0 <= j < |acts| ensures FeasibleAt(fs, acts, j) {
        if j < n {
          assert FeasibleAt(fs, init, j);
        }
      }
    }
  }

  lemma {:induction false} LastWriteExists(acts: seq<Action>, p: Path)
    ensures LastWrite(acts, p).Some? <==> exists i :: 0 <= i < |acts| && acts[i].Write? && acts[i].p == p
    decreases |acts|
  {
    if acts != [] {
      LastWriteExists(acts[..|acts| - 1], p);
    }
  }

  /** In a feasible list what is written is nowhere made a directory, nor was one before. */
  lemma FeasibleWrite(fs: Files, acts: seq<Action>, p: Path)
    requires Feasible(fs, acts) && LastWrite(acts, p).Some?
    ensures !IsDir(fs, p) && !MakesDir(acts, p)
  {
    LastWriteExists(acts, p);
    var i :| 0 <= i < |acts| && acts[i].Write? && acts[i].p == p;
    assert FeasibleAt(fs, acts, i);
  }

  /** In a feasible list what is made a directory was no regular file before. */
  lemma FeasibleDir(fs: Files, acts: seq<Action>, p: Path)
    requires Feasible(fs, acts) && MakesDir(acts, p)
    ensures !IsFile(fs, p)
  {
    var i :| 0 <= i < |acts| && Creates(acts[i], p);
    assert FeasibleAt(fs, acts, i);
  }

  /** After a feasible run a path is a directory if it was one or was asked for. */
  lemma DirAfter(fs: Files, acts: seq<Action>, p: Path)
    requires WellFormed(fs) && Feasible(fs, acts) && Run(fs, acts).Ok()
    ensures IsDir(Run(fs, acts).files, p) <==> IsDir(fs, p) || MakesDir(acts, p)
    ensures IsFile(Run(fs, acts).files, p) <==> IsFile(fs, p) || LastWrite(acts, p).Some?
  {
    LastWriterWins(fs, acts, p);
    if LastWrite(acts, p).Some? {
      FeasibleWrite(fs, acts, p);
    } else if MakesDir(acts, p) {
      FeasibleDir(fs, acts, p);
    }
  }

  /**
    A run succeeds if and only if nothing halts it, all written data is intact,
    no path is used both as a file and as a directory, and every written file's
    parent is a directory before the run or by an earlier action.
  */
  lemma {:induction false} SuccessExact(fs: Files, acts: seq<Action>)
    requires WellFormed(fs)
    ensures Run(fs, acts).Ok() <==> Feasible(fs, acts)
    decreases |acts|
  {
    if acts != [] {
      var init, n := acts[..|acts| - 1], |acts| - 1;
      RunLast(fs, acts);
      SuccessExact(fs, init);
      FeasibleLast(fs, acts);
      if Feasible(fs, init) {
        SuccessStep(fs, acts);
      }
    }
  }

  lemma SuccessStep(fs: Files, acts: seq<Action>)
    requires WellFormed(fs) && acts != []
    requires var init := acts[..|acts| - 1]; Feasible(fs, init) && Run(fs, init).Ok()
    ensures var init, n := acts[..|acts| - 1], |acts| - 1;
            Perform(Run(fs, init).files, acts[n]).Ok() <==>
            FeasibleAt(fs, acts, n) && forall j :: 0 <= j < n && acts[j].Write? ==> !Creates(acts[n], acts[j].p)
  {
    match acts[|acts| - 1]
    case Halt(_) =>
    case Mkdir(_) => MkdirStep(fs, acts);
    case Write(_, _, _) => WriteStep(fs, acts);
  }

  lemma MkdirStep(fs: Files, acts: seq<Action>)
    requires WellFormed(fs) && acts != [] && acts[|acts| - 1].Mkdir?
    requires var init := acts[..|acts| - 1]; Feasible(fs, init) && Run(fs, init).Ok()
    ensures var init, n := acts[..|acts| - 1], |acts| - 1;
            Perform(Run(fs, init).files, acts[n]).Ok() <==>
            FeasibleAt(fs, acts, n) && forall j :: 0 <= j < n && acts[j].Write? ==> !Creates(acts[n], acts[j].p)
  {
    var init, n := acts[..|acts| - 1], |acts| - 1;
    var now := Run(fs, init).files;
    RunWellFormed(fs, init);
    MakeAllExact(now, acts[n].p);
    forall q ensures IsFile(now, q) <==> IsFile(fs, q) || LastWrite(init, q).Some? {
      DirAfter(fs, init, q);
    }
    forall q ensures LastWrite(init, q).Some? <==> exists j :: 0 <= j < n && acts[j].Write? && acts[j].p == q {
      LastWriteExists(init, q);
      assert forall j :: 0 <= j < n ==> init[j] == acts[j];
    }
  }

  lemma WriteStep(fs: Files, acts: seq<Action>)
    requires WellFormed(fs) && acts != [] && acts[|acts| - 1].Write?
    requires var init := acts[..|acts| - 1]; Feasible(fs, init) && Run(fs, init).Ok()
    ensures var init, n := acts[..|acts| - 1], |acts| - 1;
            Perform(Run(fs, init).files, acts[n]).Ok() <==> FeasibleAt(fs, acts, n)
  {
    var init, p := acts[..|acts| - 1], acts[|acts| - 1].p;
    MakesDirLast(acts, p);
    DirAfter(fs, init, p);
    if p != [] {
      DirAfter(fs, init, Parent(p));
    }
  }

  // ---------- running again ----------

  lemma FeasibleAgain(fs: Files, acts: seq<Action>)
    requires WellFormed(fs) && Run(fs, acts).Ok()
    ensures Feasible(Run(fs, acts).files, acts)
  {
    var done := Run(fs, acts).files;
    SuccessExact(fs, acts);
    forall i | 0 <= i < |acts| ensures FeasibleAt(done, acts, i) {
      assert FeasibleAt(fs, acts, i);
      match acts[i]
      case Mkdir(p) =>
        forall q | OnPath(q, p) ensures !IsFile(done, q) {
          assert Creates(acts[i], q);
          DirAfter(fs, acts, q);
          if LastWrite(acts, q).Some? {
            FeasibleWrite(fs, acts, q);
          }
        }
      case Write(p, _, _) =>
        DirAfter(fs, acts, p);
        DirAfter(fs, acts, Parent(p));
        if MakesDir(acts[..i], Parent(p)) {
          var j :| 0 <= j < i && Creates(acts[..i][j], Parent(p));
          assert Creates(acts[j], Parent(p));
        }
    }
  }

  /** A second run of the same actions succeeds and changes nothing. */
  lemma RunAgain(fs: Files, acts: seq<Action>)
    requires WellFormed(fs) && Run(fs, acts).Ok()
    ensures Run(Run(fs, acts).files, acts) == Run(fs, acts)
  {
    var done := Run(fs, acts).files;
    RunWellFormed(fs, acts);
    RunWellFormed(done, acts);
    FeasibleAgain(fs, acts);
    SuccessExact(done, acts);
    forall p ensures NodeAt(Run(done, acts).files, p) == NodeAt(done, p) {
      LastWriterWins(fs, acts, p);
      LastWriterWins(done, acts, p);
    }
    SameFiles(Run(done, acts).files, done);
  }

  // ---------- what a failure leaves ----------

  /**
    A failed run has performed every action before some k successfully and
    nothing after it.  Action k is the one that failed: it gives the failure
    reported, and leaves the tree alone, except that a file whose data broke
    off holds what could be read.
  */
  lemma {:induction false} FailureLeavesPrefix(fs: Files, acts: seq<Action>) returns (k: nat)
    requires !Run(fs, acts).Ok()
    ensures k < |acts| && Run(fs, acts[..k]).Ok()
    ensures var before, a := Run(fs, acts[..k]).files, acts[k];
            && !Perform(before, a).Ok() && Run(fs, acts) == Perform(before, a)
            && Run(fs, acts).files ==
               (if a.Write? && CanCreate(before, a.p) then before[a.p := File(a.data)] else before)
            && (a.Write? && CanCreate(before, a.p) ==> !a.intact)
    decreases |acts|
  {
    var n := |acts| - 1;
    RunLast(fs, acts);
    if Run(fs, acts[..n]).Ok() {
      k := n;
    } else {
      k := FailureLeavesPrefix(fs, acts[..n]);
      assert acts[..n][..k] == acts[..k];
    }
  }

  /** The failing action is unique: no other position fits. */
  lemma FailureIsUnique(fs: Files, acts: seq<Action>, k: nat, l: nat)
    requires k < |acts| && Run(fs, acts[..k]).Ok() && !Perform(Run(fs, acts[..k]).files, acts[k]).Ok()
    requires l < |acts| && Run(fs, acts[..l]).Ok() && !Perform(Run(fs, acts[..l]).files, acts[l]).Ok()
    ensures k == l
  {
    if k < l {
      BeyondFailure(fs, acts, k, l);
    } else if l < k {
      BeyondFailure(fs, acts, l, k);
    }
  }

  lemma BeyondFailure(fs: Files, acts: seq<Action>, k: nat, l: nat)
    requires k < l <= |acts| && Run(fs, acts[..k]).Ok()
    ensures Run(fs, acts[..l]).Ok() ==> Perform(Run(fs, acts[..k]).files, acts[k]).Ok()
  {
    assert acts[..l] == acts[..k] + ([acts[k]] + acts[k + 1..l]);
    RunConcat(fs, acts[..k], [acts[k]] + acts[k + 1..l]);
    RunConcat(Run(fs, acts[..k]).files, [acts[k]], acts[k + 1..l]);
    RunOne(Run(fs, acts[..k]).files, acts[k]);
  }

  // ---------- what a run has done ----------

  /** The actions that took effect: those before a failure, and a write that broke off as the write of what was read. */
  function Effective(fs: Files, acts: seq<Action>): seq<Action>
    decreases |acts|
  {
    if acts == [] then []
    else
      var first := Perform(fs, acts[0]);
      if first.Ok() then [acts[0]] + Effective(first.files, acts[1..])
      else if acts[0].Write? && CanCreate(fs, acts[0].p) then [acts[0].(intact := true)]
      else []
  }

  /** Any run, failed or not, leaves what a successful run of its effective actions leaves. */
  lemma {:induction false} EffectiveRun(fs: Files, acts: seq<Action>)
    ensures Run(fs, Effective(fs, acts)) == Result(Run(fs, acts).files, None)
    ensures Run(fs, acts).Ok() ==> Effective(fs, acts) == acts
    decreases |acts|
  {
    if acts != [] {
      var first := Perform(fs, acts[0]);
      if first.Ok() {
        EffectiveRun(first.files, acts[1..]);
        var rest := Effective(first.files, acts[1..]);
        assert ([acts[0]] + rest)[1..] == rest;
        assert acts == [acts[0]] + acts[1..];
      } else if Effective(fs, acts) != [] {
        RunOne(fs, acts[0].(intact := true));
      }
    }
  }

  /** No action makes the path exist: no directory is made at or below it, and no file written at or above it. */
  predicate Avoids(acts: seq<Action>, p: Path) {
    forall i :: 0 <= i < |acts| ==> !Creates(acts[i], p) && !(acts[i].Write? && OnPath(acts[i].p, p))
  }

  /** After a successful run a path is missing exactly if it was and no action made it exist. */
  lemma MissingAfter(fs: Files, acts: seq<Action>, p: Path)
    requires WellFormed(fs) && Run(fs, acts).Ok()
    ensures Missing(Run(fs, acts).files, p) <==> Missing(fs, p) && Avoids(acts, p)
  {
    var done := Run(fs, acts).files;
    RunWellFormed(fs, acts);
    SuccessExact(fs, acts);
    MissingExact(fs, p);
    MissingExact(done, p);
    LastWriterWins(fs, acts, p);
    assert OnPath(p, p);
    forall q ensures IsFile(done, q) <==> IsFile(fs, q) || LastWrite(acts, q).Some? {
      DirAfter(fs, acts, q);
    }
    forall q ensures LastWrite(acts, q).Some? <==> exists i :: 0 <= i < |acts| && acts[i].Write? && acts[i].p == q {
      LastWriteExists(acts, q);
    }
    assert Avoids(acts, p) <==> !MakesDir(acts, p) && forall q :: OnPath(q, p) ==> LastWrite(acts, q).None?;
  }
}
