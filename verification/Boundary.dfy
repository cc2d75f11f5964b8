/**
  The replacement of every `}\n{` by `},{` (pkg/manifest/manifest.go:220):
  what it does to any text, and why a valid JSON object never holds one.
*/
module Boundary {
  import opened Text
  import opened Json
  import opened JsonExact

  const BOUNDARY := "}\n{"
  const REPAIRED := "},{"

  /** `strings.ReplaceAll(s, "}\n{", "},{")` */
  function Repair(s: string): string {
    ReplaceAll(s, BOUNDARY, REPAIRED)
  }

  predicate Hit(s: string, i: int) {
    0 <= i && i + 3 <= |s| && s[i] == '}' && s[i + 1] == '\n' && s[i + 2] == '{'
  }

  ghost predicate NoHit(s: string) {
    forall i :: !Hit(s, i)
  }

  lemma HitAtFront(s: string)
    ensures Hit(s, 0) <==> BOUNDARY <= s
  {
    assert BOUNDARY[0] == '}' && BOUNDARY[1] == '\n' && BOUNDARY[2] == '{' && |BOUNDARY| == 3;
    if Hit(s, 0) {
      assert s[..3] == BOUNDARY;
    }
  }

  // ---------- the replacement as a pointwise map ----------

  /** The replacement keeps the length and changes only the middle of each occurrence. */
  lemma {:induction false} RepairPointwise(s: string)
    ensures |Repair(s)| == |s|
    ensures forall i :: 0 <= i < |s| ==> Repair(s)[i] == if Hit(s, i - 1) then ',' else s[i]
  {
    HitAtFront(s);
    if Hit(s, 0) {
      var t := s[3..];
      RepairPointwise(t);
      assert Repair(s) == REPAIRED + Repair(t);
      forall i | 0 <= i < |s| ensures Repair(s)[i] == if Hit(s, i - 1) then ',' else s[i] {
        if i >= 3 {
          assert Repair(s)[i] == Repair(t)[i - 3] && t[i - 3] == s[i];
          assert i > 3 ==> (Hit(s, i - 1) <==> Hit(t, i - 4));
        }
      }
    } else if s != "" {
      var t := s[1..];
      RepairPointwise(t);
      assert Repair(s) == [s[0]] + Repair(t);
      forall i | 0 <= i < |s| ensures Repair(s)[i] == if Hit(s, i - 1) then ',' else s[i] {
        if i >= 1 {
          assert Repair(s)[i] == Repair(t)[i - 1] && t[i - 1] == s[i];
          assert i > 1 ==> (Hit(s, i - 1) <==> Hit(t, i - 2));
        }
      }
    }
  }

  /** No boundary is left, none appears across a seam, and a second pass changes nothing. */
  lemma RepairLeavesNone(s: string)
    ensures NoHit(Repair(s))
    ensures Repair(Repair(s)) == Repair(s)
    ensures Repair(s) == s <==> NoHit(s)
  {
    var r := Repair(s);
    RepairPointwise(s);
    assert forall i :: 0 <= i < |s| && r[i] != ',' ==> r[i] == s[i];
    RepairPointwise(r);
    if i :| Hit(s, i) {
      assert r[i + 1] == ',' && s[i + 1] == '\n';
    }
  }

  // ---------- the replacement across a seam ----------

  /** No boundary lies across the seam of `a + b`. */
  predicate Seamless(a: string, b: string) {
    forall i :: |a| - 2 <= i < |a| ==> !Hit(a + b, i)
  }

  /** The seam of a text is the seam of what is left after its first n characters. */
  lemma SeamLater(a: string, b: string, n: nat)
    requires Seamless(a, b) && n <= |a|
    ensures Seamless(a[n..], b)
    ensures (a + b)[n..] == a[n..] + b
  {
    var s := a + b;
    forall i | |a[n..]| - 2 <= i < |a[n..]| ensures !Hit(a[n..] + b, i) {
      assert s[n..] == a[n..] + b;
      assert Hit(s[n..], i) ==> Hit(s, i + n);
    }
  }

  lemma {:induction false} RepairSeam(a: string, b: string)
    requires Seamless(a, b)
    ensures Repair(a + b) == Repair(a) + Repair(b)
  {
    var s := a + b;
    HitAtFront(s);
    HitAtFront(a);
    if a == "" {
      assert s == b;
    } else if Hit(s, 0) {
      assert |a| >= 3 && Hit(a, 0);
      SeamLater(a, b, 3);
      RepairSeam(a[3..], b);
    } else {
      assert !Hit(a, 0);
      SeamLater(a, b, 1);
      RepairSeam(a[1..], b);
    }
  }

  /** How many boundaries the replacement repairs: one less than the parts it joins. */
  function Count(s: string): nat {
    |Split(s, BOUNDARY)| - 1
  }

  lemma {:induction false} CountSeam(a: string, b: string)
    requires Seamless(a, b)
    ensures Count(a + b) == Count(a) + Count(b)
  {
    var s := a + b;
    HitAtFront(s);
    HitAtFront(a);
    if a == "" {
      assert s == b;
    } else if Hit(s, 0) {
      assert |a| >= 3 && Hit(a, 0);
      SeamLater(a, b, 3);
      CountSeam(a[3..], b);
    } else {
      assert !Hit(a, 0);
      SeamLater(a, b, 1);
      CountSeam(a[1..], b);
    }
  }

  lemma {:induction false} CountNone(s: string)
    requires NoHit(s)
    ensures Count(s) == 0
  {
    HitAtFront(s);
    if s != "" {
      assert forall i :: 0 <= i ==> (Hit(s[1..], i) ==> Hit(s, i + 1));
      CountNone(s[1..]);
    }
  }

  /**
    The rewrite is a homomorphism: chunks that meet as `}` newline `{` are
    repaired one by one and joined with a comma.
  */
  lemma RepairConcat(a: string, b: string)
    requires a != "" && a[|a| - 1] == '}'
    requires b != "" && b[0] == '{'
    ensures Repair(a + "\n" + b) == Repair(a) + "," + Repair(b)
    ensures Count(a + "\n" + b) == Count(a) + 1 + Count(b)
  {
    var a', b' := a[..|a| - 1], b[1..];
    assert a == a' + "}" && b == "{" + b';
    assert a + "\n" + b == a' + (BOUNDARY + b');
    RepairSeam(a', BOUNDARY + b');
    RepairSeam(a', "}");
    RepairSeam("{", b');
    RepairLeavesNone("}");
    RepairLeavesNone("{");
    assert (BOUNDARY + b')[3..] == b' && BOUNDARY <= BOUNDARY + b';
    assert Repair(BOUNDARY + b') == REPAIRED + Repair(b');
    assert REPAIRED == "}" + "," + "{";
    CountSeam(a', BOUNDARY + b');
    CountSeam(a', "}");
    CountSeam("{", b');
    CountNone("}");
    CountNone("{");
  }

  function RepairAll(chunks: seq<string>): seq<string> {
    if chunks == [] then [] else [Repair(chunks[0])] + RepairAll(chunks[1..])
  }

  /** Any number of chunks: newlines between them become commas, and nothing else is joined. */
  lemma {:induction false} RepairChunks(chunks: seq<string>)
    requires forall i :: 0 <= i < |chunks| ==>
               chunks[i] != "" && chunks[i][0] == '{' && chunks[i][|chunks[i]| - 1] == '}'
    ensures Repair(Join(chunks, "\n")) == Join(RepairAll(chunks), ",")
    ensures chunks != [] ==> Join(chunks, "\n") != "" && Join(chunks, "\n")[0] == '{'
    decreases |chunks|
  {
    if |chunks| == 1 {
      assert RepairAll(chunks) == [Repair(chunks[0])];
    } else if |chunks| > 1 {
      var rest := chunks[1..];
      RepairChunks(rest);
      RepairConcat(chunks[0], Join(rest, "\n"));
      assert RepairAll(chunks)[1..] == RepairAll(rest) && |RepairAll(rest)| > 0;
    }
  }

  // ---------- no boundary inside a JSON value ----------

  /**
    A scanner for boundaries.  States 0, 1 and 2 remember how much of `}\n{`
    has just been read; state 3 says that a whole boundary has been read.
  */
  function Step(st: nat, c: char): nat {
    if st == 3 || (st == 2 && c == '{') then 3
    else if c == '}' then 1
    else if st == 1 && c == '\n' then 2
    else 0
  }

  function Scan(st: nat, s: string): nat
    decreases |s|
  {
    if s == "" then st else Scan(Step(st, s[0]), s[1..])
  }

  lemma {:induction false} ScanConcat(st: nat, a: string, b: string)
    ensures Scan(st, a + b) == Scan(Scan(st, a), b)
    decreases |a|
  {
    if a == "" {
      assert a + b == b;
    } else {
      assert (a + b)[1..] == a[1..] + b;
      ScanConcat(Step(st, a[0]), a[1..], b);
    }
  }

  lemma {:induction false} ScanStuck(s: string)
    ensures Scan(3, s) == 3
  {
    if s != "" {
      ScanStuck(s[1..]);
    }
  }

  /** The scanner ends in state 3 exactly if the text holds a boundary. */
  lemma {:induction false} ScanExact(st: nat, s: string)
    requires st < 3
    ensures Scan(st, s) <= 3
    ensures Scan(st, s) == 3 <==>
            !NoHit(s) || (st == 2 && s != "" && s[0] == '{') || (st == 1 && "\n{" <= s)
    decreases |s|
  {
    if s != "" {
      var t := s[1..];
      assert forall i :: Hit(t, i) ==> Hit(s, i + 1);
      assert forall i :: Hit(s, i) && i > 0 ==> Hit(t, i - 1);
      assert "\n{" <= s <==> s[0] == '\n' && t != "" && t[0] == '{' by {
        assert |s| >= 2 && s[0] == '\n' && s[1] == '{' ==> s[..2] == "\n{";
      }
      HitAtFront(s);
      assert Hit(s, 0) <==> s[0] == '}' && "\n{" <= t by {
        assert |t| >= 2 && t[0] == '\n' && t[1] == '{' ==> t[..2] == "\n{";
      }
      if Step(st, s[0]) == 3 {
        ScanStuck(t);
      } else {
        ScanExact(Step(st, s[0]), t);
      }
    }
  }

  /** Characters other than the three of a boundary keep the scanner in state 0. */
  lemma {:induction false} ScanQuiet(st: nat, s: string)
    requires st == 0 || (st < 3 && s != "" && s[0] !in "}{\n")
    requires '}' !in s
    ensures Scan(st, s) == 0
  {
    if s != "" {
      ScanQuiet(0, s[1..]);
    }
  }

  /** After a value, layout cannot complete a boundary. */
  lemma {:induction false} ScanLayout(st: nat, w: string)
    requires st < 3 && AllLayout(w)
    ensures Scan(st, w) < 3
    ensures st == 0 ==> Scan(st, w) == 0
    decreases |w|
  {
    if w != "" {
      ScanLayout(Step(st, w[0]), w[1..]);
    }
  }

  /** Inside a string literal only a raw `}` leaves state 0, and no newline can follow it. */
  lemma {:induction false} ScanPieces(st: nat, ps: seq<Piece>)
    requires st < 2 && LegalPieces(ps)
    ensures Scan(st, RenderPieces(ps)) == 0
    decreases |ps|
  {
    if ps == [] {
      assert RenderPieces(ps)[1..] == "";
    } else {
      var p := RenderPiece(ps[0]);
      ScanConcat(st, p, RenderPieces(ps[1..]));
      ScanPiece(st, ps[0]);
      ScanPieces(Scan(st, p), ps[1..]);
    }
  }

  lemma ScanPiece(st: nat, p: Piece)
    requires st < 2 && LegalPiece(p)
    ensures Scan(st, RenderPiece(p)) < 2
  {
    match p
    case Raw(c) =>
      assert [c][1..] == "";
    case Escape(c) =>
      ScanQuiet(st, RenderPiece(p));
    case Unicode(hex) =>
      ScanQuiet(st, RenderPiece(p));
  }

  lemma ScanOne(st: nat, c: char)
    ensures Scan(st, [c]) == Step(st, c)
  {
    assert [c][1..] == "";
  }

  lemma ScanConcat3(st: nat, a: string, b: string, c: string)
    ensures Scan(st, a + b + c) == Scan(Scan(Scan(st, a), b), c)
  {
    ScanConcat(st, a + b, c);
    ScanConcat(st, a, b);
  }

  lemma ScanWord(v: Value)
    requires Legal(v)
    requires v.Null? || v.True? || v.False? || v.Number?
    ensures Scan(0, Render(v)) == 0
  {
    if v.Number? {
      NumberChars(v.lexeme);
    }
    ScanQuiet(0, Render(v));
  }

  lemma {:induction false} ScanValue(v: Value)
    requires Legal(v)
    ensures Scan(0, Render(v)) < 2
    decreases v, 0
  {
    match v
    case Literal(ps) =>
      ScanOne(0, '"');
      ScanConcat(0, "\"", RenderPieces(ps));
      ScanPieces(0, ps);
    case EmptyArray(gap) =>
      ScanBracketed('[', gap, ']');
      ScanLayout(0, gap);
    case EmptyObject(gap) =>
      ScanBracketed('{', gap, '}');
      ScanLayout(0, gap);
    case Array(items) =>
      ScanBracketed('[', RenderElements(items), ']');
      ScanElements(items);
    case Object(members) =>
      ScanBracketed('{', RenderMembers(members), '}');
      ScanMembers(members);
    case _ =>
      ScanWord(v);
  }

  /** Content between brackets: it starts in state 0 and a bracket cannot complete a boundary. */
  lemma ScanBracketed(open: char, content: string, close: char)
    requires open == '[' || open == '{'
    requires close == ']' || close == '}'
    ensures Scan(0, [open] + content + [close]) == Step(Scan(0, content), close)
  {
    ScanConcat3(0, [open], content, [close]);
    ScanOne(0, open);
    ScanOne(Scan(0, content), close);
  }

  lemma {:induction false} ScanElement(e: Element)
    requires LegalElement(e)
    ensures Scan(0, RenderElement(e)) < 3
    decreases e, 1
  {
    ScanConcat3(0, e.before, Render(e.value), e.after);
    ScanLayout(0, e.before);
    ScanValue(e.value);
    ScanLayout(Scan(0, Render(e.value)), e.after);
  }

  lemma {:induction false} ScanElements(es: Elements)
    requires LegalElements(es)
    ensures Scan(0, RenderElements(es)) < 3
    decreases es, 2
  {
    ScanElement(es.e);
    if es.Item? {
      ScanConcat3(0, RenderElement(es.e), ",", RenderElements(es.tail));
      ScanOne(Scan(0, RenderElement(es.e)), ',');
      ScanElements(es.tail);
    }
  }

  lemma {:induction false} ScanMember(m: Member)
    requires LegalMember(m)
    ensures Scan(0, RenderMember(m)) < 3
    decreases m, 1
  {
    var key := RenderPieces(m.key);
    ScanConcat3(0, m.before, "\"", key);
    ScanConcat3(0, m.before + "\"" + key, m.after, ":");
    ScanConcat(0, m.before + "\"" + key + m.after + ":", RenderElement(m.e));
    ScanLayout(0, m.before);
    ScanOne(0, '"');
    ScanPieces(0, m.key);
    ScanLayout(0, m.after);
    ScanOne(0, ':');
    ScanElement(m.e);
  }

  lemma {:induction false} ScanMembers(ms: Members)
    requires LegalMembers(ms)
    ensures Scan(0, RenderMembers(ms)) < 3
    decreases ms, 2
  {
    ScanMember(ms.m);
    if ms.NextMember? {
      ScanConcat3(0, RenderMember(ms.m), ",", RenderMembers(ms.tail));
      ScanOne(Scan(0, RenderMember(ms.m)), ',');
      ScanMembers(ms.tail);
    }
  }

  /** No valid JSON text holds `}\n{`: not in its structure, at any depth, and not in its strings. */
  lemma NoBoundaryInside(s: string)
    requires ParseText(s).Got?
    ensures NoHit(s)
  {
    ScanElement(ParseText(s).v);
    ScanExact(0, s);
  }
}
