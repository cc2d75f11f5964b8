/**
  The string functions of Go's `strings` package that the modelled code calls,
  and the laws about them that the other modules rest on.
  Every separator and pattern in the code is a non-empty literal, except the
  label handed to `Contains`, which may be empty.
*/
module Text {

  /** `strings.Contains` */
  predicate Contains(s: string, sub: string) {
    sub <= s || (s != "" && Contains(s[1..], sub))
  }

  lemma {:induction false} ContainsExact(s: string, sub: string)
    ensures Contains(s, sub) <==> exists i: nat :: i <= |s| && sub <= s[i..]
  {
    if sub <= s {
      assert s[0..] == s;
    } else if s == "" {
      assert forall i: nat :: i <= |s| ==> s[i..] == s;
    } else {
      ContainsExact(s[1..], sub);
      if Contains(s[1..], sub) {
        var i: nat :| i <= |s[1..]| && sub <= s[1..][i..];
        assert s[i + 1..] == s[1..][i..];
      }
      if i: nat :| i <= |s| && sub <= s[i..] {
        assert i != 0 by { assert s[0..] == s; }
        assert s[i..] == s[1..][i - 1..];
      }
    }
  }

  /** A text inherits what any slice of it contains. */
  lemma {:induction false} ContainsInside(a: string, s: string, b: string, sub: string)
    requires Contains(s, sub)
    ensures Contains(a + s + b, sub)
  {
    ContainsExact(s, sub);
    ContainsExact(a + s + b, sub);
    var i: nat :| i <= |s| && sub <= s[i..];
    assert (a + s + b)[|a| + i..] == s[i..] + b;
  }

  /** `strings.TrimSuffix` followed by `strings.TrimPrefix`, both with "/" */
  function TrimSlashes(s: string): string {
    var t := if s != "" && s[|s| - 1] == '/' then s[..|s| - 1] else s;
    if t != "" && t[0] == '/' then t[1..] else t
  }

  /** One slash is trimmed at each end and nothing else: these cases are all texts. */
  lemma TrimSlashesExactly(x: string)
    ensures TrimSlashes("/" + x + "/") == x
    ensures x == "" || x[0] != '/' ==> TrimSlashes(x + "/") == x
    ensures x == "" || x[|x| - 1] != '/' ==> TrimSlashes("/" + x) == x
    ensures x == "" || (x[0] != '/' && x[|x| - 1] != '/') ==> TrimSlashes(x) == x
  {
    var s := "/" + x + "/";
    assert s[..|s| - 1] == "/" + x && ("/" + x)[1..] == x;
    assert (x + "/")[..|x|] == x;
    assert x != "" ==> ("/" + x)[|x|] == x[|x| - 1];
    assert x == "" ==> "/" + x == "/" && x + "/" == "/";
  }

  /** `strings.Split` with a non-empty separator */
  function Split(s: string, sep: string): (parts: seq<string>)
    requires sep != ""
    ensures parts != []
  {
    if sep <= s then [""] + Split(s[|sep|..], sep)
    else if s == "" then [""]
    else
      var parts := Split(s[1..], sep);
      [[s[0]] + parts[0]] + parts[1..]
  }

  /** `strings.Join` */
  function Join(parts: seq<string>, sep: string): string {
    if parts == [] then ""
    else if |parts| == 1 then parts[0]
    else parts[0] + sep + Join(parts[1..], sep)
  }

  /** `strings.ReplaceAll` with a non-empty pattern: leftmost, non-overlapping */
  function ReplaceAll(s: string, pat: string, with: string): string
    requires pat != ""
  {
    if pat <= s then with + ReplaceAll(s[|pat|..], pat, with)
    else if s == "" then ""
    else [s[0]] + ReplaceAll(s[1..], pat, with)
  }

  /** Replacing is splitting at the pattern and joining with the replacement. */
  lemma {:induction false} ReplaceIsSplitJoin(s: string, pat: string, with: string)
    requires pat != ""
    ensures ReplaceAll(s, pat, with) == Join(Split(s, pat), with)
  {
    if pat <= s {
      ReplaceIsSplitJoin(s[|pat|..], pat, with);
      var rest, parts := Split(s[|pat|..], pat), Split(s, pat);
      assert parts == [""] + rest && parts[1..] == rest;
      assert Join(parts, with) == "" + with + Join(rest, with);
    } else if s != "" {
      ReplaceIsSplitJoin(s[1..], pat, with);
      JoinFirst(s[0], Split(s[1..], pat), with);
    }
  }

  lemma JoinFirst(c: char, parts: seq<string>, sep: string)
    requires parts != []
    ensures Join([[c] + parts[0]] + parts[1..], sep) == [c] + Join(parts, sep)
  {
    var all := [[c] + parts[0]] + parts[1..];
    assert all[1..] == parts[1..];
    if |parts| > 1 {
      assert ([c] + parts[0]) + sep + Join(parts[1..], sep) == [c] + (parts[0] + sep + Join(parts[1..], sep));
    }
  }

  /** Splitting loses nothing: joining with the same separator restores the text. */
  lemma {:induction false} JoinOfSplit(s: string, sep: string)
    requires sep != ""
    ensures Join(Split(s, sep), sep) == s
  {
    ReplaceIsSplitJoin(s, sep, sep);
    ReplaceBySame(s, sep);
  }

  lemma {:induction false} ReplaceBySame(s: string, pat: string)
    requires pat != ""
    ensures ReplaceAll(s, pat, pat) == s
  {
    if pat <= s {
      ReplaceBySame(s[|pat|..], pat);
    } else if s != "" {
      ReplaceBySame(s[1..], pat);
    }
  }

  /** A text without the separator is its own only part. */
  lemma {:induction false} SplitWithout(s: string, c: char)
    requires c !in s
    ensures Split(s, [c]) == [s]
  {
    if s != "" {
      SplitWithout(s[1..], c);
      assert !([c] <= s) && [s[0]] + s[1..] == s;
    }
  }

  /** How a split grows when a character is put in front of the text. */
  lemma SplitCons(d: char, s: string, c: char)
    ensures Split([d] + s, [c]) ==
            var parts := Split(s, [c]);
            if d == c then [""] + parts else [[d] + parts[0]] + parts[1..]
  {
    var t, sep := [d] + s, [c];
    assert t[0] == d && t[1..] == s && |sep| == 1;
    if d == c {
      assert t[..1] == sep && sep <= t;
      assert Split(t, sep) == [""] + Split(s, sep);
    } else {
      assert sep[0] != t[0] && !(sep <= t);
    }
  }

  /** Splitting at one character distributes over a text that is cut at that character. */
  lemma {:induction false} SplitAt(a: string, b: string, c: char)
    ensures Split(a + [c] + b, [c]) == Split(a, [c]) + Split(b, [c])
  {
    if a == "" {
      assert a + [c] + b == [c] + b;
      SplitCons(c, b, c);
    } else {
      var d, t := a[0], a[1..] + [c] + b;
      var left, right := Split(a[1..], [c]), Split(b, [c]);
      assert Split(t, [c]) == left + right by { SplitAt(a[1..], b, c); }
      assert a + [c] + b == [d] + t;
      assert a == [d] + a[1..];
      SplitCons(d, t, c);
      SplitCons(d, a[1..], c);
      PartsCons(d, left, right);
    }
  }

  lemma PartsCons(d: char, left: seq<string>, right: seq<string>)
    requires left != []
    ensures [""] + (left + right) == ([""] + left) + right
    ensures [[d] + (left + right)[0]] + (left + right)[1..] == ([[d] + left[0]] + left[1..]) + right
  {
  }

  /** `strings.NewReplacer(" ", "").Replace`: deletes every U+0020 */
  function StripSpaces(s: string): string {
    if s == "" then ""
    else if s[0] == ' ' then StripSpaces(s[1..])
    else [s[0]] + StripSpaces(s[1..])
  }

  /** Deleting spaces is replacing each by nothing. */
  lemma {:induction false} StripIsReplace(s: string)
    ensures StripSpaces(s) == ReplaceAll(s, " ", "")
  {
    if s != "" {
      StripIsReplace(s[1..]);
    }
  }

  lemma {:induction false} StripConcat(a: string, b: string)
    ensures StripSpaces(a + b) == StripSpaces(a) + StripSpaces(b)
  {
    if a == "" {
      assert a + b == b;
    } else {
      assert (a + b)[1..] == a[1..] + b;
      StripConcat(a[1..], b);
    }
  }

  /** Deleting spaces leaves exactly the other characters, and nothing to delete. */
  lemma {:induction false} StripChars(s: string)
    ensures forall c :: c in StripSpaces(s) <==> c in s && c != ' '
    ensures |StripSpaces(s)| <= |s|
    ensures StripSpaces(s) == s <==> ' ' !in s
  {
    if s != "" {
      StripChars(s[1..]);
    }
  }
}
