/** The string operations the tools use: `split`, `join`, `strip`, `splitlines`. */
module Text {

  predicate IsSlash(c: char) { c == '/' }

  predicate IsNewline(c: char) { c == '\n' }

  /** The characters `str.splitlines` breaks a line at. */
  predicate IsBreak(c: char) {
    c == '\n' || c == '\r' || c == '\U{B}' || c == '\U{C}' || c == '\U{1C}' || c == '\U{1D}' || c == '\U{1E}'
    || c == '\U{85}' || c == '\U{2028}' || c == '\U{2029}'
  }

  /** The characters `str.strip` and `str.split` remove; every line break is one. */
  predicate IsSpace(c: char) {
    IsBreak(c) || c == ' ' || c == '\t' || c == '\U{1F}' || c == '\U{A0}' || c == '\U{1680}'
    || '\U{2000}' <= c <= '\U{200A}' || c == '\U{202F}' || c == '\U{205F}' || c == '\U{3000}'
  }

  // ------------------------------------------------------------------------------- stripping

  lemma DropOnce(s: string)
    requires s != ""
    ensures forall k :: 0 <= k < |s| ==> s[1..][k..] == s[k + 1..]
  {
  }

  function TrimLeft(s: string, out: char -> bool): (r: string)
    ensures |r| <= |s| && r == s[|s| - |r|..]
    ensures r != "" ==> !out(r[0])
    ensures forall i :: 0 <= i < |s| - |r| ==> out(s[i])
  {
    if s != "" && out(s[0]) then
      DropOnce(s);
      TrimLeft(s[1..], out)
    else s
  }

  function TrimRight(s: string, out: char -> bool): (r: string)
    ensures |r| <= |s| && r == s[..|r|]
    ensures r != "" ==> !out(r[|r| - 1])
    ensures forall i :: |r| <= i < |s| ==> out(s[i])
  {
    if s != "" && out(s[|s| - 1]) then TrimRight(s[..|s| - 1], out) else s
  }

  function Trim(s: string, out: char -> bool): string {
    TrimLeft(TrimRight(s, out), out)
  }

  function Strip(s: string): string {
    Trim(s, IsSpace)
  }

  /** Neither end is a character to strip. */
  predicate Trimmed(s: string, out: char -> bool) {
    s == "" || (!out(s[0]) && !out(s[|s| - 1]))
  }

  ghost predicate Within(part: string, s: string) {
    exists i, j :: 0 <= i <= j <= |s| && part == s[i..j]
  }

  lemma TrimTrims(s: string, out: char -> bool)
    ensures Trimmed(Trim(s, out), out)
    ensures Trimmed(s, out) ==> Trim(s, out) == s
    ensures Within(Trim(s, out), s)
  {
    var t := TrimRight(s, out);
    var r := TrimLeft(t, out);
    assert r == s[|t| - |r|..|t|];
  }

  ghost predicate AllOut(s: string, out: char -> bool) {
    forall i :: 0 <= i < |s| ==> out(s[i])
  }

  /** `r` is what is left of `s` when all that goes at either end is gone. */
  ghost predicate StripsTo(s: string, r: string, out: char -> bool) {
    Trimmed(r, out) && exists a, b :: s == a + r + b && AllOut(a, out) && AllOut(b, out)
  }

  /** Trimming leaves that, and nothing else fits the description. */
  lemma TrimStrips(s: string, r: string, out: char -> bool)
    ensures StripsTo(s, r, out) <==> r == Trim(s, out)
  {
    TrimFitsTheDescription(s, out);
    if StripsTo(s, r, out) {
      var a, b :| s == a + r + b && AllOut(a, out) && AllOut(b, out);
      OnlyTrimFits(s, a, r, b, out);
    }
  }

  lemma TrimFitsTheDescription(s: string, out: char -> bool)
    ensures StripsTo(s, Trim(s, out), out)
  {
    hide TrimLeft, TrimRight, Trimmed;
    var t := TrimRight(s, out);
    var r := TrimLeft(t, out);
    var a, b := t[..|t| - |r|], s[|t|..];
    assert s == t + b && t == a + r;
    TheCutEndsAreOut(s, out, a, b);
    TrimTrims(s, out);
  }

  lemma TheCutEndsAreOut(s: string, out: char -> bool, a: string, b: string)
    requires var t := TrimRight(s, out); a == t[..|t| - |TrimLeft(t, out)|] && b == s[|t|..]
    ensures AllOut(a, out) && AllOut(b, out)
  {
    hide TrimLeft, TrimRight;
  }

  lemma OnlyTrimFits(s: string, a: string, r: string, b: string, out: char -> bool)
    requires s == a + r + b && AllOut(a, out) && AllOut(b, out) && Trimmed(r, out)
    ensures Trim(s, out) == r
  {
    hide TrimLeft, TrimRight;
    var t := TrimRight(s, out);
    if r == "" {
      assert AllOut(s, out);
    } else {
      var last := |a| + |r| - 1;
      assert s[last] == r[|r| - 1] && s[|a|] == r[0];
      assert forall i :: last < i < |s| ==> s[i] == b[i - last - 1];
      assert |t| == last + 1;
      assert t == a + r;
      var u := TrimLeft(t, out);
      assert t[|a|] == r[0];
      assert |u| == |r|;
    }
  }

  lemma BlankIsAllSpace(s: string)
    ensures Strip(s) == "" <==> AllOut(s, IsSpace)
  {
    hide IsSpace, Trim;
    TrimStrips(s, "", IsSpace);
    if AllOut(s, IsSpace) {
      assert s == s + "" + "" && AllOut("", IsSpace);
    }
    if StripsTo(s, "", IsSpace) {
      var a, b :| s == a + "" + b && AllOut(a, IsSpace) && AllOut(b, IsSpace);
      assert s == a + b;
    }
  }

  lemma {:induction false} TrimRightAppend(a: string, b: string, out: char -> bool)
    ensures TrimRight(a + b, out) == if TrimRight(b, out) != "" then a + TrimRight(b, out) else TrimRight(a, out)
  {
    if b == "" {
      assert a + b == a;
    } else if out(b[|b| - 1]) {
      assert (a + b)[..|a + b| - 1] == a + b[..|b| - 1];
      TrimRightAppend(a, b[..|b| - 1], out);
    }
  }

  // ------------------------------------------------------------------------- split and join

  /** `s.split(sep)` for a one-character separator: never empty, even for the empty string. */
  function Split(s: string, sep: char): (parts: seq<string>)
    ensures parts != []
    ensures forall i :: 0 <= i < |parts| ==> sep !in parts[i]
  {
    if s == "" then [""] else Onto(s[0], Split(s[1..], sep), sep)
  }

  /** One more character in front of an already split string. */
  function Onto(c: char, parts: seq<string>, sep: char): (r: seq<string>)
    requires parts != []
    ensures r != []
  {
    if c == sep then [""] + parts else [[c] + parts[0]] + parts[1..]
  }

  lemma OntoAppend(c: char, p: seq<string>, q: seq<string>, sep: char)
    requires p != []
    ensures Onto(c, p + q, sep) == Onto(c, p, sep) + q
  {
    assert (p + q)[1..] == p[1..] + q;
  }

  function Join(parts: seq<string>, sep: string): string {
    if parts == [] then ""
    else if |parts| == 1 then parts[0]
    else parts[0] + sep + Join(parts[1..], sep)
  }

  lemma {:induction false} JoinSplit(s: string, sep: char)
    ensures Join(Split(s, sep), [sep]) == s
  {
    if s != "" {
      JoinSplit(s[1..], sep);
      var rest := Split(s[1..], sep);
      assert s == [s[0]] + s[1..];
      if s[0] == sep {
        assert ([""] + rest)[1..] == rest;
      } else {
        assert ([[s[0]] + rest[0]] + rest[1..])[1..] == rest[1..];
      }
    }
  }

  lemma {:induction false} SplitAtSeparator(a: string, sep: char, b: string)
    ensures Split(a + [sep] + b, sep) == Split(a, sep) + Split(b, sep)
  {
    if a == "" {
      assert a + [sep] + b == [sep] + b;
      assert ([sep] + b)[1..] == b;
    } else {
      SplitAtSeparator(a[1..], sep, b);
      assert (a + [sep] + b)[1..] == a[1..] + [sep] + b;
      OntoAppend(a[0], Split(a[1..], sep), Split(b, sep), sep);
    }
  }

  lemma {:induction false} SplitWithout(s: string, sep: char)
    requires sep !in s
    ensures Split(s, sep) == [s]
  {
    if s != "" {
      SplitWithout(s[1..], sep);
      assert s == [s[0]] + s[1..];
    }
  }

  lemma {:induction false} SplitJoin(parts: seq<string>, sep: char)
    requires parts != [] && forall i :: 0 <= i < |parts| ==> sep !in parts[i]
    ensures Split(Join(parts, [sep]), sep) == parts
  {
    SplitWithout(parts[0], sep);
    if |parts| > 1 {
      SplitJoin(parts[1..], sep);
      SplitAtSeparator(parts[0], sep, Join(parts[1..], [sep]));
    }
  }

  lemma Associates(a: string, b: string, c: string)
    ensures a + b + c == a + (b + c)
  {
  }

  predicate StartsWith(s: string, prefix: string) {
    |prefix| <= |s| && s[..|prefix|] == prefix
  }

  /** A string continues another at a separator exactly when its parts do. */
  lemma {:induction false} BoundaryIsPrefix(a: string, c: string, sep: char)
    ensures Split(a, sep) <= Split(c, sep) <==> c == a || StartsWith(c, a + [sep])
  {
    if a != "" && c != "" {
      BoundaryIsPrefix(a[1..], c[1..], sep);
      assert StartsWith(c, a + [sep]) <==> a[0] == c[0] && StartsWith(c[1..], a[1..] + [sep]) by {
        assert (a + [sep])[1..] == a[1..] + [sep];
        StartsWithCons(c, a + [sep]);
      }
      assert c == a <==> a[0] == c[0] && c[1..] == a[1..];
      PrefixOfHeads(Split(a[1..], sep), Split(c[1..], sep), a[0], c[0], sep);
    } else if a == "" && c != "" {
      assert a + [sep] == [sep];
      assert StartsWith(c, [sep]) <==> c[0] == sep;
      assert Split(c, sep)[0] == "" <==> c[0] == sep;
    } else if a != "" && c == "" {
      assert Split(c, sep) == [""];
      assert Split(a, sep) == [""] ==> a == "" by { JoinSplit(a, sep); }
    }
  }

  lemma StartsWithCons(s: string, prefix: string)
    requires s != "" && prefix != ""
    ensures StartsWith(s, prefix) <==> s[0] == prefix[0] && StartsWith(s[1..], prefix[1..])
  {
    if |prefix| <= |s| {
      assert s[..|prefix|] == [s[0]] + s[1..][..|prefix| - 1];
      assert prefix == [prefix[0]] + prefix[1..];
    }
  }

  lemma PrefixOfHeads(sa: seq<string>, sc: seq<string>, x: char, y: char, sep: char)
    requires sa != [] && sc != []
    ensures Onto(x, sa, sep) <= Onto(y, sc, sep) <==> x == y && sa <= sc
  {
    var la, lc := Onto(x, sa, sep), Onto(y, sc, sep);
    if la <= lc {
      assert la[0] == lc[0];
      if x != sep {
        assert la[0][0] == x;
        assert ([x] + sa[0])[1..] == sa[0] && ([y] + sc[0])[1..] == sc[0];
        forall i | 0 <= i < |sa| ensures sa[i] == sc[i] { if i > 0 { assert la[i] == lc[i]; } }
      } else {
        assert la[0] == "" && y == sep;
        forall i | 0 <= i < |sa| ensures sa[i] == sc[i] { assert la[i + 1] == lc[i + 1]; }
      }
    }
  }
}
