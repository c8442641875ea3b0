/** What one render inserts, told of the characters (`_bmad/scripts/render_skill.py`). */
module RenderTexts {
  import opened Core
  import opened Merge
  import opened Strings = Text
  import opened Lines
  import opened RenderValues
  import opened RenderIdentity
  import opened RenderOutputs

  // ---------------------------------------------------------------------------- replacing a mark

  /** The mark stands nowhere in the text. */
  ghost predicate Absent(s: string, mark: string) {
    forall i :: 0 <= i <= |s| ==> !StartsWith(s[i..], mark)
  }

  /** `r` is `s` with `text` at every place of the mark, and nothing else changed. */
  ghost predicate Replaced(s: string, mark: string, text: string, r: string) {
    exists parts :: FreeOf(parts, mark) && s == Join(parts, mark) && r == Join(parts, text)
  }

  ghost predicate FreeOf(parts: seq<string>, mark: string) {
    parts != [] && forall i :: 0 <= i < |parts| ==> Absent(parts[i], mark)
  }

  /** A mark whose first character it has once, so that no two of its places overlap. */
  predicate Apartable(mark: string) {
    mark != "" && mark[0] !in mark[1..]
  }

  lemma TheMarksAreApart()
    ensures Apartable("{project-root}") && Apartable("{skill-root}")
  {
    assert forall c :: c in "{project-root}"[1..] ==> c != '{';
    assert forall c :: c in "{skill-root}"[1..] ==> c != '{';
  }

  lemma AbsentOneMore(c: char, s: string, mark: string)
    ensures Absent([c] + s, mark) <==> !StartsWith([c] + s, mark) && Absent(s, mark)
  {
    hide StartsWith;
    var all := [c] + s;
    assert all[0..] == all;
    assert forall i :: 0 <= i <= |s| ==> all[i + 1..] == s[i..];
    if Absent(all, mark) {
      forall i | 0 <= i <= |s| ensures !StartsWith(s[i..], mark) { assert !StartsWith(all[i + 1..], mark); }
    } else {
      var i :| 0 <= i <= |all| && StartsWith(all[i..], mark);
      assert i > 0 ==> all[i..] == s[i - 1..];
    }
  }

  lemma {:induction false} ContainsIsNotAbsent(s: string, mark: string)
    ensures Contains(s, mark) <==> !Absent(s, mark)
  {
    if s == "" {
      assert s[0..] == s;
    } else {
      ContainsIsNotAbsent(s[1..], mark);
      AbsentOneMore(s[0], s[1..], mark);
      assert [s[0]] + s[1..] == s;
    }
  }

  /** Replacing does that, and nothing else fits the description. */
  lemma ReplaceAllReplaces(s: string, mark: string, text: string, r: string)
    requires Apartable(mark)
    ensures r == ReplaceAll(s, mark, text) <==> Replaced(s, mark, text, r)
  {
    var parts := ReplacedParts(s, mark, text);
    if Replaced(s, mark, text, r) {
      var ps :| FreeOf(ps, mark) && s == Join(ps, mark) && r == Join(ps, text);
      JoinedIsReplaced(ps, mark, text);
    }
  }

  lemma {:induction false} ReplacedParts(s: string, mark: string, text: string) returns (parts: seq<string>)
    requires mark != ""
    ensures FreeOf(parts, mark) && s == Join(parts, mark) && ReplaceAll(s, mark, text) == Join(parts, text)
    decreases |s|
  {
    hide Absent, Join, StartsWith;
    if s == "" {
      NothingHoldsAMark(mark);
      JoinNothing(mark);
      JoinNothing(text);
      parts := [""];
    } else if StartsWith(s, mark) {
      var rest := AfterAStart(s, mark);
      var others := ReplacedParts(rest, mark, text);
      parts := [""] + others;
      JoinAfterNothing(others, mark);
      JoinAfterNothing(others, text);
      NothingAndOthers(others, mark);
    } else {
      var others := ReplacedParts(s[1..], mark, text);
      parts := OneCharacterMore(s, others, mark, text);
    }
  }

  lemma AfterAStart(s: string, mark: string) returns (rest: string)
    requires StartsWith(s, mark)
    ensures rest == s[|mark|..] && s == mark + rest
  {
    rest := s[|mark|..];
  }

  lemma JoinAfterNothing(parts: seq<string>, sep: string)
    requires parts != []
    ensures Join([""] + parts, sep) == sep + Join(parts, sep)
  {
    assert ([""] + parts)[1..] == parts;
    assert "" + sep + Join(parts, sep) == sep + Join(parts, sep);
  }

  lemma NothingAndOthers(others: seq<string>, mark: string)
    requires mark != "" && FreeOf(others, mark)
    ensures FreeOf([""] + others, mark)
  {
    hide Absent;
    NothingHoldsAMark(mark);
  }

  lemma OneCharacterMore(s: string, others: seq<string>, mark: string, text: string) returns (parts: seq<string>)
    requires s != "" && mark != "" && !StartsWith(s, mark)
    requires FreeOf(others, mark) && s[1..] == Join(others, mark)
    ensures FreeOf(parts, mark) && Join(parts, mark) == s && Join(parts, text) == [s[0]] + Join(others, text)
  {
    hide Absent, Join, StartsWith;
    parts := [[s[0]] + others[0]] + others[1..];
    JoinOneMore(s[0], others, mark);
    JoinOneMore(s[0], others, text);
    TheFirstPartIsFree(s, others, mark);
    assert s == [s[0]] + s[1..];
  }

  lemma NothingHoldsAMark(mark: string)
    requires mark != ""
    ensures Absent("", mark)
  {
  }

  lemma JoinNothing(sep: string)
    ensures Join([""], sep) == ""
  {
  }

  lemma JoinOneMore(c: char, parts: seq<string>, sep: string)
    requires parts != []
    ensures Join([[c] + parts[0]] + parts[1..], sep) == [c] + Join(parts, sep)
  {
    var longer := [[c] + parts[0]] + parts[1..];
    assert longer[1..] == parts[1..];
    if |parts| > 1 {
      assert [c] + parts[0] + sep + Join(parts[1..], sep) == [c] + (parts[0] + sep + Join(parts[1..], sep));
    }
  }

  lemma TheFirstPartIsFree(s: string, others: seq<string>, mark: string)
    requires s != "" && mark != "" && others != [] && !StartsWith(s, mark) && Absent(others[0], mark)
    requires s[1..] == Join(others, mark)
    ensures Absent([s[0]] + others[0], mark)
  {
    hide Absent;
    AbsentOneMore(s[0], others[0], mark);
    var part := [s[0]] + others[0];
    JoinStartsWithItsFirst(others, mark);
    assert s[..|part|] == [s[0]] + s[1..][..|others[0]|];
    AStartIsAStart(s, part, mark);
  }

  lemma AStartIsAStart(s: string, part: string, mark: string)
    requires StartsWith(s, part)
    ensures StartsWith(part, mark) ==> StartsWith(s, mark)
    ensures |mark| <= |part| && StartsWith(s, mark) ==> StartsWith(part, mark)
  {
    if |mark| <= |part| {
      assert s[..|mark|] == s[..|part|][..|mark|];
    }
  }

  lemma NotAtTheHead(s: string, mark: string)
    requires Absent(s, mark)
    ensures !StartsWith(s, mark)
  {
    assert s[0..] == s;
  }

  lemma JoinStartsWithItsFirst(parts: seq<string>, sep: string)
    requires parts != []
    ensures StartsWith(Join(parts, sep), parts[0])
  {
    if |parts| > 1 {
      Associates(parts[0], sep, Join(parts[1..], sep));
    }
  }

  lemma {:induction false} JoinedIsReplaced(parts: seq<string>, mark: string, text: string)
    requires Apartable(mark) && FreeOf(parts, mark)
    ensures ReplaceAll(Join(parts, mark), mark, text) == Join(parts, text)
    decreases |parts|, |parts[0]|
  {
    hide Absent, ReplaceAll, Join, StartsWith;
    if parts == [""] {
      JoinNothing(mark);
      JoinNothing(text);
      NothingIsReplaced(mark, text);
    } else if parts[0] == "" {
      JoinedIsReplaced(parts[1..], mark, text);
      assert parts == [""] + parts[1..];
      JoinAfterNothing(parts[1..], mark);
      JoinAfterNothing(parts[1..], text);
      AMarkIsReplaced(Join(parts[1..], mark), mark, text);
    } else {
      var c, first := parts[0][0], parts[0][1..];
      var shorter := [first] + parts[1..];
      assert parts[0] == [c] + first && shorter[1..] == parts[1..];
      assert parts == [[c] + shorter[0]] + shorter[1..];
      AbsentOneMore(c, first, mark);
      JoinedIsReplaced(shorter, mark, text);
      JoinOneMore(c, shorter, mark);
      JoinOneMore(c, shorter, text);
      NoMarkAcrossAPart(parts, mark);
      ACharacterStays(c, Join(shorter, mark), mark, text);
    }
  }

  lemma NothingIsReplaced(mark: string, text: string)
    requires mark != ""
    ensures ReplaceAll("", mark, text) == ""
  {
  }

  lemma AMarkIsReplaced(rest: string, mark: string, text: string)
    requires mark != ""
    ensures ReplaceAll(mark + rest, mark, text) == text + ReplaceAll(rest, mark, text)
  {
    assert (mark + rest)[|mark|..] == rest && (mark + rest)[..|mark|] == mark;
  }

  lemma ACharacterStays(c: char, rest: string, mark: string, text: string)
    requires mark != "" && !StartsWith([c] + rest, mark)
    ensures ReplaceAll([c] + rest, mark, text) == [c] + ReplaceAll(rest, mark, text)
  {
    assert ([c] + rest)[1..] == rest;
  }

  /** A mark does not start inside a part and end beyond it: its head stands in it once. */
  lemma NoMarkAcrossAPart(parts: seq<string>, mark: string)
    requires Apartable(mark) && parts != [] && parts[0] != "" && Absent(parts[0], mark)
    ensures !StartsWith(Join(parts, mark), mark)
  {
    hide Join;
    var s, part := Join(parts, mark), parts[0];
    JoinStartsWithItsFirst(parts, mark);
    AStartIsAStart(s, part, mark);
    NotAtTheHead(part, mark);
    if StartsWith(s, mark) {
      AMarkFits(parts, mark);
    }
  }

  lemma AMarkFits(parts: seq<string>, mark: string)
    requires Apartable(mark) && parts != [] && parts[0] != "" && StartsWith(Join(parts, mark), mark)
    ensures |mark| <= |parts[0]|
  {
    var s, part := Join(parts, mark), parts[0];
    forall i | 1 <= i < |mark| ensures mark[i] != mark[0] {
      assert mark[1..][i - 1] == mark[i];
    }
    assert forall i :: 0 <= i < |mark| ==> s[i] == s[..|mark|][i];
    if |parts| > 1 {
      Associates(part, mark, Join(parts[1..], mark));
      assert s[|part|] == mark[0];
    }
  }

  // ------------------------------------------------------------------------- what a value inserts

  ghost predicate EndsWith(s: string, end: string) {
    |end| <= |s| && s[|s| - |end|..] == end
  }

  /** A configured value inserts its own text with the project root at every place of its mark; it is
    * refused exactly when it is no text, or blank, or does not come to an absolute path. */
  lemma WhatAConfigValueInserts(value: Value, what: string, root: string, text: string)
    ensures ConfigText(value, what, root) == Success(text) <==>
      && value.Text? && !AllOut(value.s, IsSpace) && Replaced(value.s, "{project-root}", root, text)
      && (Absent(value.s, "{project-root}") || StartsWith(text, "/"))
    ensures ConfigText(value, what, root) == Failure(NotAString(what)) <==> !value.Text?
    ensures ConfigText(value, what, root) == Failure(Blank(what)) <==> value.Text? && AllOut(value.s, IsSpace)
  {
    hide AllOut, Absent, Replaced, ReplaceAll, Contains, Strip;
    if value.Text? {
      BlankIsAllSpace(value.s);
      TheMarksAreApart();
      ContainsIsNotAbsent(value.s, "{project-root}");
      ReplaceAllReplaces(value.s, "{project-root}", root, text);
      if Absent(value.s, "{project-root}") {
        NothingToReplace(value.s, "{project-root}", root);
      }
    }
  }

  lemma NothingToReplace(s: string, mark: string, text: string)
    requires Absent(s, mark) && Apartable(mark)
    ensures ReplaceAll(s, mark, text) == s
  {
    hide Absent;
    ReplaceAllReplaces(s, mark, text, s);
    assert FreeOf([s], mark) && Join([s], mark) == s && Join([s], text) == s;
  }

  /** A text that neither holds the mark nor ends in a start of it. */
  ghost predicate Clean(root: string, mark: string) {
    Absent(root, mark) && forall k :: 0 < k < |mark| ==> !EndsWith(root, mark[..k])
  }

  /** No `{project-root}` survives in any resolved value exactly when the root neither holds one nor
    * ends in the start of one. */
  lemma NoMarkSurvivesExactlyWhenTheRootIsClean(root: string)
    requires StartsWith(root, "/")
    ensures (forall value, what, text :: ConfigText(value, what, root) == Success(text) ==>
               Absent(text, "{project-root}"))
      <==> Clean(root, "{project-root}")
  {
    hide ConfigText, Clean, Absent, StartsWith;
    if Clean(root, "{project-root}") {
      forall value, what, text | ConfigText(value, what, root) == Success(text)
        ensures Absent(text, "{project-root}")
      {
        NoMarkInAText(value, what, root, text);
      }
    } else {
      var value, text := AValueWithAMark(root);
      assert ConfigText(value, "", root) == Success(text);
    }
  }

  lemma NoMarkInAText(value: Value, what: string, root: string, text: string)
    requires ConfigText(value, what, root) == Success(text)
    requires StartsWith(root, "/") && Clean(root, "{project-root}")
    ensures Absent(text, "{project-root}")
  {
    hide Clean, Absent, ReplaceAll, Contains, Strip;
    ContainsIsNotAbsent(value.s, "{project-root}");
    TheMarksAreApart();
    assert root[..1] == [root[0]];
    assert forall c :: c in "{project-root}" ==> c != '/';
    ACleanRootLeavesNoMark(value.s, "{project-root}", root);
  }

  lemma {:induction false} ACleanRootLeavesNoMark(s: string, mark: string, root: string)
    requires Apartable(mark) && root != "" && root[0] !in mark && Clean(root, mark)
    ensures Absent(ReplaceAll(s, mark, root), mark)
    decreases |s|
  {
    hide Absent, Clean, StartsWith;
    if s == "" {
      NothingHoldsAMark(mark);
    } else if StartsWith(s, mark) {
      var rest := AfterAStart(s, mark);
      ACleanRootLeavesNoMark(rest, mark, root);
      NoMarkAfterAClean(root, ReplaceAll(rest, mark, root), mark);
    } else {
      var after := ReplaceAll(s[1..], mark, root);
      ACleanRootLeavesNoMark(s[1..], mark, root);
      AbsentOneMore(s[0], after, mark);
      NoNewStart(s, mark, root);
    }
  }

  lemma NoMarkAfterAClean(root: string, rest: string, mark: string)
    requires Clean(root, mark) && Absent(rest, mark)
    ensures Absent(root + rest, mark)
  {
    hide Clean;
    var s := root + rest;
    forall i | 0 <= i <= |s| ensures !StartsWith(s[i..], mark) {
      if i >= |root| {
        assert s[i..] == rest[i - |root|..];
      } else if StartsWith(s[i..], mark) {
        AMarkReachesIn(root, rest, mark, i);
      }
    }
  }

  lemma AMarkReachesIn(root: string, rest: string, mark: string, i: nat)
    requires i < |root| && StartsWith((root + rest)[i..], mark)
    ensures !Clean(root, mark)
  {
    hide Absent;
    var end, s := root[i..], (root + rest)[i..];
    assert s == end + rest;
    assert StartsWith(s, end);
    AStartIsAStart(s, end, mark);
    if |mark| <= |end| {
      HoldsAMark(root, mark, i);
    } else {
      assert end == s[..|mark|][..|end|] == mark[..|end|];
      assert root[|root| - |end|..] == end;
      assert EndsWith(root, mark[..|end|]);
    }
  }

  lemma HoldsAMark(s: string, mark: string, i: nat)
    requires i <= |s| && StartsWith(s[i..], mark)
    ensures !Absent(s, mark)
  {
  }

  /** What starts a replaced text without the root's first character started the text as well. */
  lemma {:induction false} StartsAsBefore(s: string, mark: string, root: string, start: string)
    requires mark != "" && root != "" && root[0] !in start
    requires StartsWith(ReplaceAll(s, mark, root), start)
    ensures StartsWith(s, start)
    decreases |s|
  {
    if start != "" && s != "" {
      var after := ReplaceAll(s, mark, root);
      StartsWithCons(after, start);
      assert start[0] in start && after[0] == start[0];
      assert after[1..] == ReplaceAll(s[1..], mark, root);
      StartsAsBefore(s[1..], mark, root, start[1..]);
      StartsWithCons(s, start);
    }
  }

  lemma NoNewStart(s: string, mark: string, root: string)
    requires s != "" && mark != "" && root != "" && root[0] !in mark && !StartsWith(s, mark)
    ensures !StartsWith([s[0]] + ReplaceAll(s[1..], mark, root), mark)
  {
    var after := ReplaceAll(s[1..], mark, root);
    var all := [s[0]] + after;
    assert all[1..] == after;
    StartsWithCons(all, mark);
    StartsWithCons(s, mark);
    if StartsWith(after, mark[1..]) {
      StartsAsBefore(s[1..], mark, root, mark[1..]);
    }
  }

  lemma AValueWithAMark(root: string) returns (value: Value, text: string)
    requires StartsWith(root, "/") && !Clean(root, "{project-root}")
    ensures ConfigText(value, "", root) == Success(text) && !Absent(text, "{project-root}")
  {
    hide Absent, StartsWith, ConfigText;
    var mark, rest := "{project-root}", "";
    NothingHoldsAMark(mark);
    if !Absent(root, mark) {
      assert root + "" == root;
    } else {
      var k :| 0 < k < |mark| && EndsWith(root, mark[..k]);
      rest := mark[k..];
      TheEndIsShorter(mark, k);
      TheStartAndTheEnd(root, mark, k);
    }
    AMarkAndARest(rest, root);
    value, text := Value.Text(mark + rest), root + rest;
  }

  lemma TheEndIsShorter(mark: string, k: nat)
    requires 0 < k < |mark|
    ensures Absent(mark[k..], mark)
  {
  }

  lemma TheStartAndTheEnd(root: string, mark: string, k: nat)
    requires 0 < k < |mark| && EndsWith(root, mark[..k])
    ensures !Absent(root + mark[k..], mark)
  {
    hide Absent;
    var text := root + mark[k..];
    assert text[|root| - k..] == mark[..k] + mark[k..] == mark;
    HoldsAMark(text, mark, |root| - k);
  }

  lemma AMarkAndARest(rest: string, root: string)
    requires StartsWith(root, "/") && Absent(rest, "{project-root}")
    ensures ConfigText(Value.Text("{project-root}" + rest), "", root) == Success(root + rest)
  {
    hide Absent, ConfigText, AllOut;
    var mark := "{project-root}";
    var parts := ["", rest];
    NothingHoldsAMark(mark);
    assert FreeOf(parts, mark);
    assert parts[1..] == [rest];
    assert Join(parts, mark) == mark + rest && Join(parts, root) == root + rest;
    assert Replaced(mark + rest, mark, root, root + rest);
    ABraceIsNotBlank(mark + rest);
    assert (root + rest)[..1] == root[..1];
    WhatAConfigValueInserts(Value.Text(mark + rest), "", root, root + rest);
  }

  lemma ABraceIsNotBlank(s: string)
    requires s != "" && s[0] == '{'
    ensures !AllOut(s, IsSpace)
  {
  }

  // -------------------------------------------------------------------------------------- lists

  ghost predicate NotBlank(value: Value) {
    value.Text? && !AllOut(value.s, IsSpace)
  }

  ghost predicate AreTexts(items: seq<Value>, strings: seq<string>) {
    |strings| == |items| && forall i :: 0 <= i < |items| ==> items[i] == Value.Text(strings[i]) && NotBlank(items[i])
  }

  lemma RequiredTextIs(value: Option<Value>, what: string, allowEmpty: bool, s: string)
    ensures RequireString(value, what, allowEmpty) == Success(s)
      <==> value == Some(Value.Text(s)) && (allowEmpty || !AllOut(s, IsSpace))
  {
    hide AllOut, Strip;
    BlankIsAllSpace(s);
  }

  /** A list of strings is read exactly when every item is a text that is not blank. */
  lemma {:induction false} WhatAListReads(items: seq<Value>, what: string, strings: seq<string>)
    ensures StringsOf(items, what) == Success(strings) <==> AreTexts(items, strings)
  {
    hide RequireString, AllOut;
    if items != [] {
      var n := |items| - 1;
      var before := items[..n];
      assert items == before + [items[n]];
      if StringsOf(before, what).Success? {
        WhatAListReads(before, what, StringsOf(before, what).value);
      }
      if |strings| == |items| {
        WhatAListReads(before, what, strings[..n]);
        RequiredTextIs(Some(items[n]), what, false, strings[n]);
        assert strings == strings[..n] + [strings[n]];
      }
      if RequireString(Some(items[n]), what, false).Success? {
        RequiredTextIs(Some(items[n]), what, false, RequireString(Some(items[n]), what, false).value);
      }
    }
  }

  /** One item of a list: a dash before its first line, and the others below it, indented. */
  ghost predicate IsItem(item: string, text: string) {
    exists lines ::
      (if item == "" then lines == [""] else Broken(item, lines)) && text == "- " + Join(lines, "\n  ")
  }

  ghost predicate AreItems(items: seq<string>, texts: seq<string>) {
    |texts| == |items| && forall i :: 0 <= i < |items| ==> IsItem(items[i], texts[i])
  }

  ghost predicate InsertsList(items: seq<string>, text: string) {
    if items == [] then text == "_None._" else exists texts :: AreItems(items, texts) && text == Join(texts, "\n")
  }

  /** A list inserts its items, in order, each on lines of its own; and an empty one says that it is. */
  lemma WhatAListInserts(items: seq<string>, text: string)
    ensures MarkdownList(items) == text <==> InsertsList(items, text)
  {
    hide IsItem;
    if items != [] {
      var texts := TheItems(items);
      assert AreItems(items, texts);
      if ts :| AreItems(items, ts) && text == Join(ts, "\n") {
        forall i | 0 <= i < |items| ensures ts[i] == texts[i] {
          OneItem(items[i], ts[i], texts[i]);
        }
        assert ts == texts;
      }
    }
  }

  lemma OneItem(item: string, a: string, b: string)
    requires IsItem(item, a) && IsItem(item, b)
    ensures a == b
  {
    hide Broken, Join;
    var x :| (if item == "" then x == [""] else Broken(item, x)) && a == "- " + Join(x, "\n  ");
    var y :| (if item == "" then y == [""] else Broken(item, y)) && b == "- " + Join(y, "\n  ");
    SplitLinesAreTheBrokenParts(item, x);
    SplitLinesAreTheBrokenParts(item, y);
  }

  lemma {:induction false} TheItems(items: seq<string>) returns (texts: seq<string>)
    requires items != []
    ensures AreItems(items, texts) && Join(ListLines(items), "\n") == Join(texts, "\n")
    ensures ListLines(items) != []
  {
    hide IsItem, Join, SplitLines, Indented;
    var text, lines := TheLinesOfAnItem(items[0]);
    if |items| == 1 {
      texts := [text];
      assert items[1..] == [] && ListLines(items) == lines + [] == lines;
      JoinOfOne(text);
    } else {
      var others := TheItems(items[1..]);
      texts := [text] + others;
      JoinTogether(lines, ListLines(items[1..]), "\n");
      assert texts[1..] == others;
      JoinAfterOne(text, others);
    }
  }

  lemma JoinOfOne(text: string)
    ensures Join([text], "\n") == text
  {
  }

  lemma JoinAfterOne(text: string, others: seq<string>)
    requires others != []
    ensures Join([text] + others, "\n") == text + "\n" + Join(others, "\n")
  {
    assert ([text] + others)[1..] == others;
  }

  lemma {:induction false} JoinTogether(a: seq<string>, b: seq<string>, sep: string)
    requires a != [] && b != []
    ensures Join(a + b, sep) == Join(a, sep) + sep + Join(b, sep)
  {
    if |a| == 1 {
      assert (a + b)[1..] == b;
    } else {
      JoinTogether(a[1..], b, sep);
      assert (a + b)[1..] == a[1..] + b;
      Associates(a[0] + sep, Join(a[1..], sep) + sep, Join(b, sep));
      Associates(a[0] + sep, Join(a[1..], sep), sep);
    }
  }

  lemma TheLinesOfAnItem(item: string) returns (text: string, lines: seq<string>)
    ensures var all := SplitLines(item);
      lines == if all == [] then ["- "] else ["- " + all[0]] + Indented(all[1..])
    ensures IsItem(item, text) && Join(lines, "\n") == text
  {
    hide Broken, SplitLines, Join;
    var all := SplitLines(item);
    SplitLinesAreTheBrokenParts(item, all);
    if all == [] {
      text, lines := "- ", ["- "];
      JoinOfNothingAtAll("\n  ");
      JoinOfOne("- ");
      assert "- " + "" == "- ";
    } else {
      lines := ["- " + all[0]] + Indented(all[1..]);
      text := "- " + Join(all, "\n  ");
      IndentedJoins("- " + all[0], all[1..]);
      HeadJoins("- ", all);
    }
  }

  lemma JoinOfNothingAtAll(sep: string)
    ensures Join([""], sep) == ""
  {
  }

  lemma HeadJoins(head: string, lines: seq<string>)
    requires lines != []
    ensures Join([head + lines[0]] + lines[1..], "\n  ") == head + Join(lines, "\n  ")
  {
    var longer := [head + lines[0]] + lines[1..];
    assert longer[1..] == lines[1..];
    if |lines| > 1 {
      var rest := Join(lines[1..], "\n  ");
      Associates(head, lines[0], "\n  ");
      Associates(head, lines[0] + "\n  ", rest);
    }
  }

  lemma {:induction false} IndentedJoins(first: string, lines: seq<string>)
    ensures Join([first] + Indented(lines), "\n") == Join([first] + lines, "\n  ")
    decreases |lines|
  {
    if lines == [] {
      assert [first] + Indented(lines) == [first] && [first] + lines == [first];
    } else {
      var rest := lines[1..];
      assert ([first] + Indented(lines))[1..] == ["  " + lines[0]] + Indented(rest);
      assert ([first] + lines)[1..] == lines;
      IndentedJoins("  " + lines[0], rest);
      HeadJoins("  ", lines);
      var after := Join(lines, "\n  ");
      assert first + "\n" + ("  " + after) == first + "\n  " + after;
    }
  }

  // -------------------------------------------------------------------------------- review layers

  /** What is kept of one layer: its four fields, the name standing in for itself by the identifier. */
  ghost predicate IsLayerOf(item: Value, layer: Value) {
    && item.Table? && layer.Table?
    && layer.entries.Keys == {"id", "name", "instruction"} + (if "when" in item.entries then {"when"} else {})
    && "id" in item.entries && NotBlank(item.entries["id"]) && layer.entries["id"] == item.entries["id"]
    && layer.entries["name"] == item.entries[if "name" in item.entries then "name" else "id"]
    && NotBlank(layer.entries["name"])
    && "instruction" in item.entries && item.entries["instruction"].Text?
    && layer.entries["instruction"] == item.entries["instruction"]
    && ("when" in item.entries ==>
          NotBlank(item.entries["when"]) && layer.entries["when"] == item.entries["when"])
  }

  ghost predicate HasId(layer: Value, id: string) {
    layer.Table? && "id" in layer.entries && layer.entries["id"] == Value.Text(id)
  }

  ghost predicate AreLayersOf(items: seq<Value>, layers: seq<Value>) {
    && |layers| == |items| && (forall i :: 0 <= i < |items| ==> IsLayerOf(items[i], layers[i]))
    && forall i, j, id :: 0 <= i < j < |items| && HasId(layers[i], id) ==> !HasId(layers[j], id)
  }

  lemma ALayerIs(item: Value, seen: set<string>, what: string, id: string, layer: Value)
    ensures LayerOf(item, seen, what) == Success((id, layer))
      <==> IsLayerOf(item, layer) && HasId(layer, id) && id !in seen
  {
    hide IsLayerOf, LayerOf;
    ALayerIsRead(item, seen, what);
    if IsLayerOf(item, layer) && HasId(layer, id) && id !in seen {
      ALayerReads(item, seen, what, id, layer);
      OneLayer(item, layer, LayerOf(item, seen, what).value.1);
    }
  }

  lemma ALayerHasItsId(item: Value, layer: Value) returns (id: string)
    requires IsLayerOf(item, layer)
    ensures HasId(layer, id)
  {
    id := item.entries["id"].s;
  }

  lemma ALayerIsRead(item: Value, seen: set<string>, what: string)
    ensures LayerOf(item, seen, what).Success? ==>
      var (id, layer) := LayerOf(item, seen, what).value;
      IsLayerOf(item, layer) && HasId(layer, id) && id !in seen
  {
    hide AllOut, RequireString;
    RequiredTexts(what);
  }

  lemma ALayerReads(item: Value, seen: set<string>, what: string, id: string, layer: Value)
    requires IsLayerOf(item, layer) && HasId(layer, id) && id !in seen
    ensures LayerOf(item, seen, what).Success?
  {
    hide AllOut, RequireString;
    RequiredTexts(what);
  }

  lemma OneLayer(item: Value, a: Value, b: Value)
    requires IsLayerOf(item, a) && IsLayerOf(item, b)
    ensures a == b
  {
    hide NotBlank;
    assert a.entries == b.entries;
  }

  lemma RequiredTexts(what: string)
    ensures forall value, allowEmpty ::
      RequireString(value, what, allowEmpty).Success?
      <==> (value.Some? && value.value.Text? && (allowEmpty || !AllOut(value.value.s, IsSpace)))
    ensures forall value, allowEmpty :: RequireString(value, what, allowEmpty).Success? ==>
      value == Some(Value.Text(RequireString(value, what, allowEmpty).value))
  {
    hide AllOut, Strip;
    forall value: Option<Value>, allowEmpty | value.Some? && value.value.Text?
      ensures RequireString(value, what, allowEmpty).Success? <==> allowEmpty || !AllOut(value.value.s, IsSpace)
    {
      BlankIsAllSpace(value.value.s);
    }
  }

  ghost predicate HoldsIds(seen: set<string>, layers: seq<Value>) {
    forall id :: id in seen <==> exists i :: 0 <= i < |layers| && HasId(layers[i], id)
  }

  lemma {:induction false} LayersReadAre(items: seq<Value>, what: string)
    requires LayersOf(items, what).Success?
    ensures var (seen, layers) := LayersOf(items, what).value; AreLayersOf(items, layers) && HoldsIds(seen, layers)
  {
    hide LayerOf, IsLayerOf, HasId;
    if items != [] {
      var n := |items| - 1;
      LayersReadAre(items[..n], what);
      var (ids, earlier) := LayersOf(items[..n], what).value;
      var (id, layer) := LayerOf(items[n], ids, what).value;
      ALayerIs(items[n], ids, what, id, layer);
      OneId(layer, id);
      OneLayerMore(ids, earlier, id, layer);
    }
  }

  lemma OneId(layer: Value, id: string)
    requires HasId(layer, id)
    ensures forall other :: HasId(layer, other) <==> other == id
  {
  }

  lemma OneLayerMore(ids: set<string>, earlier: seq<Value>, id: string, layer: Value)
    requires HoldsIds(ids, earlier) && forall other :: HasId(layer, other) <==> other == id
    ensures HoldsIds(ids + {id}, earlier + [layer])
  {
    hide HasId;
    var all := earlier + [layer];
    forall other ensures other in ids + {id} <==> exists i :: 0 <= i < |all| && HasId(all[i], other) {
      assert all[|earlier|] == layer;
      if i :| 0 <= i < |earlier| && HasId(earlier[i], other) {
        assert HasId(all[i], other);
      }
    }
  }

  /** Layers are read exactly when each is a table of the right texts and no identifier comes twice. */
  lemma WhatLayersRead(items: seq<Value>, what: string, layers: seq<Value>)
    ensures (LayersOf(items, what).Success? && LayersOf(items, what).value.1 == layers) <==> AreLayersOf(items, layers)
  {
    hide LayersOf, AreLayersOf;
    if LayersOf(items, what).Success? {
      LayersReadAre(items, what);
    }
    if AreLayersOf(items, layers) {
      LayersAreRead(items, what, layers);
    }
  }

  lemma {:induction false} LayersAreRead(items: seq<Value>, what: string, layers: seq<Value>)
    requires AreLayersOf(items, layers)
    ensures LayersOf(items, what).Success? && LayersOf(items, what).value.1 == layers
  {
    hide LayerOf, IsLayerOf, HasId;
    if items != [] {
      var n := |items| - 1;
      LayersAreRead(items[..n], what, layers[..n]);
      LayersReadAre(items[..n], what);
      var (ids, earlier) := LayersOf(items[..n], what).value;
      var id := ALayerHasItsId(items[n], layers[n]);
      assert forall i :: 0 <= i < n ==> earlier[i] == layers[i] && !HasId(layers[i], id);
      ALayerIs(items[n], ids, what, id, layers[n]);
    }
  }

  ghost predicate IsActive(layer: Value) {
    layer.Table? && "instruction" in layer.entries && NotBlank(layer.entries["instruction"])
  }

  /** What stands for when a layer runs, if it says so. */
  ghost predicate IsWhen(layer: Value, text: string)
    requires layer.Table?
  {
    if "when" in layer.entries then
      layer.entries["when"].Text? && text == "\n\nRun only when: " + layer.entries["when"].s
    else text == ""
  }

  /** The section of one layer: its name and identifier, when it runs, and its stripped instruction. */
  ghost predicate IsSection(layer: Value, text: string) {
    && layer.Table? && {"id", "name", "instruction"} <= layer.entries.Keys
    && layer.entries["id"].Text? && layer.entries["name"].Text? && layer.entries["instruction"].Text?
    && exists when, instruction ::
        && IsWhen(layer, when) && StripsTo(layer.entries["instruction"].s, instruction, IsSpace)
        && text == "#### " + layer.entries["name"].s + " (`" + layer.entries["id"].s + "`)" + when
            + "\n\n" + instruction
  }

  /** The places of the layers with an instruction, in order. */
  ghost predicate ActiveAt(layers: seq<Value>, at: seq<nat>) {
    && (forall i, j :: 0 <= i < j < |at| ==> at[i] < at[j])
    && (forall i :: i in at <==> 0 <= i < |layers| && IsActive(layers[i]))
  }

  ghost predicate AreSections(layers: seq<Value>, at: seq<nat>, sections: seq<string>) {
    && ActiveAt(layers, at) && |sections| == |at|
    && forall j :: 0 <= j < |at| ==> at[j] in at && IsSection(layers[at[j]], sections[j])
  }

  /** Layers insert a section for each one with an instruction, in order, or the halting line. */
  ghost predicate InsertsLayers(layers: seq<Value>, text: string) {
    exists at, sections ::
      && AreSections(layers, at, sections)
      && text == if at != [] then Join(sections, "\n\n")
                 else "No active review layers. " + "HALT with blocking condition `no active review layers`."
  }

  lemma ASectionIs(item: Value, layer: Value)
    requires IsLayerOf(item, layer)
    ensures IsActive(layer) <==> Strip(Field(layer, "instruction")) != ""
    ensures IsSection(layer, Section(layer))
  {
    hide AllOut, Strip;
    BlankIsAllSpace(Field(layer, "instruction"));
    StripStrips(Field(layer, "instruction"));
    var when := if Field(layer, "when") != "" then "\n\nRun only when: " + Field(layer, "when") else "";
    if "when" in layer.entries {
      NotBlankIsNotEmpty(layer.entries["when"]);
    }
    assert IsWhen(layer, when);
    var head := "#### " + Field(layer, "name") + " (`" + Field(layer, "id") + "`)";
    assert Section(layer) == head + when + "\n\n" + Strip(Field(layer, "instruction"));
  }

  lemma NotBlankIsNotEmpty(value: Value)
    requires NotBlank(value)
    ensures value.s != ""
  {
  }

  lemma StripStrips(s: string)
    ensures StripsTo(s, Strip(s), IsSpace)
  {
    hide StripsTo, IsSpace, Trim;
    TrimStrips(s, Strip(s), IsSpace);
  }

  lemma {:induction false} WhatLayersInsert(items: seq<Value>, layers: seq<Value>)
    requires |layers| == |items| && forall i :: 0 <= i < |items| ==> IsLayerOf(items[i], layers[i])
    ensures InsertsLayers(layers, ReviewLayers(layers))
  {
    hide IsLayerOf, Section, Field, IsSection, IsActive;
    var at := TheSectionsAre(items, layers);
    assert AreSections(layers, at, Sections(layers));
  }

  lemma {:induction false} SectionsOneMore(layers: seq<Value>, layer: Value)
    ensures Sections(layers + [layer])
         == Sections(layers) + if Strip(Field(layer, "instruction")) != "" then [Section(layer)] else []
  {
    hide Strip, Section, Field;
    var all := layers + [layer];
    if layers == [] {
      assert all == [layer] && all[1..] == [];
    } else {
      SectionsOneMore(layers[1..], layer);
      assert all[1..] == layers[1..] + [layer] && all[0] == layers[0];
      SectionsOfTheHead(all);
      SectionsOfTheHead(layers);
    }
  }

  lemma SectionsOfTheHead(layers: seq<Value>)
    requires layers != []
    ensures Sections(layers)
         == (if Strip(Field(layers[0], "instruction")) != "" then [Section(layers[0])] else []) + Sections(layers[1..])
  {
    hide Strip, Section, Field;
  }

  lemma {:induction false} TheSectionsAre(items: seq<Value>, layers: seq<Value>) returns (at: seq<nat>)
    requires |layers| == |items| && forall i :: 0 <= i < |items| ==> IsLayerOf(items[i], layers[i])
    ensures AreSections(layers, at, Sections(layers))
  {
    hide IsLayerOf, Section, Field, IsSection, IsActive, Strip, AreSections;
    if layers == [] {
      at := [];
      NoSections();
    } else {
      var n := |layers| - 1;
      at := TheSectionsAre(items[..n], layers[..n]);
      ASectionIs(items[n], layers[n]);
      SectionsOneMore(layers[..n], layers[n]);
      assert layers == layers[..n] + [layers[n]];
      OneLayerFurther(layers[..n], layers[n], at, Sections(layers[..n]), Section(layers[n]));
      if IsActive(layers[n]) {
        at := at + [n];
      } else {
        assert Sections(layers[..n]) + [] == Sections(layers[..n]);
      }
    }
  }

  lemma NoSections()
    ensures AreSections([], [], [])
  {
  }

  lemma OneLayerFurther(layers: seq<Value>, layer: Value, at: seq<nat>, sections: seq<string>, section: string)
    requires AreSections(layers, at, sections)
    ensures !IsActive(layer) ==> AreSections(layers + [layer], at, sections)
    ensures IsActive(layer) && IsSection(layer, section) ==>
      AreSections(layers + [layer], at + [|layers|], sections + [section])
  {
    hide IsSection, IsActive;
    var all, more := layers + [layer], at + [|layers|];
    assert all[|layers|] == layer && forall i :: 0 <= i < |layers| ==> all[i] == layers[i];
    assert forall i :: i in more <==> i in at || i == |layers|;
    assert forall j :: 0 <= j < |at| ==> at[j] in at && at[j] < |layers|;
  }

  // ------------------------------------------------------------------------------- customizations

  ghost predicate IsListOfTables(value: Value) {
    value.Arr? && value.items != [] && forall i :: 0 <= i < |value.items| ==> value.items[i].Table?
  }

  /** A customization is accepted by the kind of its default: a text, review layers, or a list of texts. */
  ghost predicate Accepts(value: Value, default: Value, what: string) {
    if default.Text? then
      value.Text? && (NotBlank(value) || !NotBlank(default) || what == "customization.workflow.open_spec")
    else
      default.Arr? && value.Arr?
      && if IsListOfTables(default) then exists layers :: AreLayersOf(value.items, layers)
         else exists strings :: AreTexts(value.items, strings)
  }

  /** What goes into the identity, and what into the text. */
  ghost predicate Inserts(value: Value, default: Value, resolved: Value, text: string) {
    if default.Text? then resolved == value == Value.Text(text)
    else if IsListOfTables(default) then
      value.Arr? && resolved.Arr? && AreLayersOf(value.items, resolved.items) && InsertsLayers(resolved.items, text)
    else
      resolved == value && value.Arr?
      && exists strings :: AreTexts(value.items, strings) && InsertsList(strings, text)
  }

  lemma WhatACustomizationInserts(value: Value, default: Value, what: string)
    ensures CustomValue(value, default, what).Success? <==> Accepts(value, default, what)
    ensures forall resolved, text :: CustomValue(value, default, what) == Success((resolved, text)) ==>
      Inserts(value, default, resolved, text)
  {
    hide AllOut, LayersOf, StringsOf, ReviewLayers, MarkdownList, Strip;
    hide AreLayersOf, AreTexts, InsertsLayers, InsertsList;
    if default.Text? {
      RequiredTexts(what);
      BlankIsAllSpace(default.s);
    } else if default.Arr? && value.Arr? {
      if IsTableArray(default) {
        LayersDecide(value.items, what);
      } else {
        TextsDecide(value.items, what);
      }
    }
  }

  /** Why a customization is refused: a default of a kind that has no rule, a value of another kind than its
    * default, or blank text where the default is not. */
  lemma WhyACustomizationIsRefused(value: Value, default: Value, what: string)
    ensures !default.Text? && !default.Arr? ==> CustomValue(value, default, what) == Failure(UnsupportedDefault(what))
    ensures default.Arr? && !value.Arr? ==> CustomValue(value, default, what) == Failure(NotAList(what))
    ensures default.Text? && !value.Text? ==> CustomValue(value, default, what) == Failure(NotAString(what))
    ensures default.Text? && value.Text? && CustomValue(value, default, what).Failure? ==>
      CustomValue(value, default, what).error == Blank(what)
  {
    hide Strip;
  }

  /** Why a layer is refused, in the order it is read: it is no table, its identifier is no text or blank, or
    * another layer had it before. */
  lemma WhyALayerIsRefused(item: Value, seen: set<string>, what: string)
    ensures !item.Table? ==> LayerOf(item, seen, what) == Failure(NotATable(what))
    ensures item.Table? && ("id" in item.entries ==> !item.entries["id"].Text?) ==>
      LayerOf(item, seen, what) == Failure(NotAString(what))
    ensures item.Table? && "id" in item.entries && item.entries["id"].Text? && !NotBlank(item.entries["id"]) ==>
      LayerOf(item, seen, what) == Failure(Blank(what))
    ensures item.Table? && "id" in item.entries && NotBlank(item.entries["id"]) && item.entries["id"].s in seen ==>
      LayerOf(item, seen, what) == Failure(DuplicateLayer(item.entries["id"].s))
  {
    hide AllOut, Strip;
    if item.Table? && "id" in item.entries && item.entries["id"].Text? {
      BlankIsAllSpace(item.entries["id"].s);
    }
  }

  lemma LayersDecide(items: seq<Value>, what: string)
    ensures LayersOf(items, what).Success? <==> exists layers :: AreLayersOf(items, layers)
    ensures LayersOf(items, what).Success? ==>
      var layers := LayersOf(items, what).value.1;
      AreLayersOf(items, layers) && InsertsLayers(layers, ReviewLayers(layers))
  {
    hide LayersOf, InsertsLayers, IsLayerOf, ReviewLayers, HasId;
    if LayersOf(items, what).Success? {
      LayersReadAre(items, what);
      WhatLayersInsert(items, LayersOf(items, what).value.1);
    }
    if layers :| AreLayersOf(items, layers) {
      WhatLayersRead(items, what, layers);
    }
  }

  lemma TextsDecide(items: seq<Value>, what: string)
    ensures StringsOf(items, what).Success? <==> exists strings :: AreTexts(items, strings)
    ensures StringsOf(items, what).Success? ==>
      var strings := StringsOf(items, what).value;
      AreTexts(items, strings) && InsertsList(strings, MarkdownList(strings))
  {
    hide StringsOf, AreTexts, MarkdownList;
    if StringsOf(items, what).Success? {
      WhatAListReads(items, what, StringsOf(items, what).value);
      WhatAListInserts(StringsOf(items, what).value, MarkdownList(StringsOf(items, what).value));
    }
    if strings :| AreTexts(items, strings) {
      WhatAListReads(items, what, strings);
    }
  }

  // --------------------------------------------------------------------- what a token stands for

  /** The tables some names lead through, and what they lead to. */
  ghost predicate Passes(v: Value, names: seq<string>, steps: seq<Value>) {
    && |steps| == |names| + 1 && steps[0] == v
    && forall i :: 0 <= i < |names| ==>
        steps[i].Table? && names[i] in steps[i].entries && steps[i + 1] == steps[i].entries[names[i]]
  }

  ghost predicate LeadsTo(v: Value, names: seq<string>, w: Value) {
    exists steps :: Passes(v, names, steps) && steps[|names|] == w
  }

  lemma {:induction false} WhereNamesLead(v: Value, names: seq<string>, w: Value)
    ensures At(v, names) == Some(w) <==> LeadsTo(v, names, w)
  {
    if names == [] {
      assert v == w ==> Passes(v, names, [v]);
    } else if v.Table? && names[0] in v.entries {
      WhereNamesLead(v.entries[names[0]], names[1..], w);
      NamesLeadOn(v, names, w);
    }
  }

  lemma NamesLeadOn(v: Value, names: seq<string>, w: Value)
    requires names != [] && v.Table? && names[0] in v.entries
    ensures LeadsTo(v, names, w) <==> LeadsTo(v.entries[names[0]], names[1..], w)
  {
    var next := v.entries[names[0]];
    if steps :| Passes(next, names[1..], steps) && steps[|names| - 1] == w {
      assert Passes(v, names, [v] + steps);
    }
    if steps :| Passes(v, names, steps) && steps[|names|] == w {
      assert Passes(next, names[1..], steps[1..]);
    }
  }

  /** What a config value comes to in the text. */
  ghost predicate ConfigInserts(value: Value, root: string, text: string) {
    && NotBlank(value) && Replaced(value.s, "{project-root}", root, text)
    && (Absent(value.s, "{project-root}") || StartsWith(text, "/"))
  }

  ghost predicate IsLeafNamed(data: Value, key: string, names: seq<string>, value: Value) {
    names != [] && names[|names| - 1] == key && LeadsTo(data, names, value) && !value.Table? && !value.Arr?
  }

  /** A dotted path leaves out the empty names it would start with. */
  ghost predicate IsDotted(names: seq<string>, path: string) {
    exists k :: IsDottedFrom(names, k, path)
  }

  ghost predicate IsDottedFrom(names: seq<string>, k: int, path: string) {
    && 0 <= k <= |names| && (forall i :: 0 <= i < k ==> names[i] == "") && (k < |names| ==> names[k] != "")
    && path == Join(names[k..], ".")
  }

  /** What a token stands for: where it is read, what is read there, and what that inserts. */
  ghost predicate StandsFor(token: Token, env: Env, m: Meaning) {
    match token
    case Short(key) =>
      exists names, value, path ::
        && IsLeafNamed(env.central, key, names, value) && IsDotted(names, path)
        && (forall others, v :: IsLeafNamed(env.central, key, others, v) ==> others == names)
        && ConfigInserts(value, env.root, m.text) && m.value == Value.Text(m.text) && m.source == FromConfig(path)
    case Config(path) =>
      exists value ::
        && LeadsTo(env.central, Split(path, '.'), value)
        && ConfigInserts(value, env.root, m.text) && m.value == Value.Text(m.text) && m.source == FromConfig(path)
    case Custom(path) =>
      env.defaults.Some?
      && exists value, default ::
        && LeadsTo(env.customization, Split("workflow." + path, '.'), value)
        && LeadsTo(env.defaults.value, Split("workflow." + path, '.'), default)
        && Inserts(value, default, m.value, m.text) && m.source == FromCustomization(path)
  }

  lemma ConfigTextInserts(value: Value, what: string, root: string, text: string)
    ensures ConfigText(value, what, root) == Success(text) <==> ConfigInserts(value, root, text)
  {
    hide AllOut, Replaced, Absent, ConfigText, StartsWith;
    WhatAConfigValueInserts(value, what, root, text);
  }

  lemma {:induction false} PathFromIsJoined(prefix: string, names: seq<string>)
    requires prefix != ""
    ensures PathFrom(prefix, names) == Join([prefix] + names, ".")
    decreases |names|
  {
    if names == [] {
      assert [prefix] + names == [prefix];
    } else {
      var longer := prefix + "." + names[0];
      PathFromIsJoined(longer, names[1..]);
      assert ([prefix] + names)[1..] == names;
      var rest := names[1..];
      assert ([longer] + rest)[1..] == rest;
      if rest != [] {
        var after := Join(rest, ".");
        assert longer + "." + after == prefix + "." + (names[0] + "." + after);
      }
    }
  }

  lemma {:induction false} ThePathIsDotted(names: seq<string>)
    ensures IsDotted(names, PathFrom("", names))
    decreases |names|
  {
    hide Join, IsDottedFrom;
    if names == [] {
      NoNamesAreDotted();
    } else if names[0] == "" {
      ThePathIsDotted(names[1..]);
      var k :| IsDottedFrom(names[1..], k, PathFrom("", names[1..]));
      AnEmptyNameIsLeftOut(names, k, PathFrom("", names[1..]));
    } else {
      PathFromIsJoined(names[0], names[1..]);
      AllNamesAreDotted(names);
    }
  }

  lemma NoNamesAreDotted()
    ensures IsDottedFrom([], 0, "")
  {
    assert Join([], ".") == "";
  }

  lemma AnEmptyNameIsLeftOut(names: seq<string>, k: int, path: string)
    requires names != [] && names[0] == "" && IsDottedFrom(names[1..], k, path)
    ensures IsDottedFrom(names, k + 1, path)
  {
    hide Join;
    assert names[k + 1..] == names[1..][k..];
    assert forall i :: 0 < i < |names| ==> names[i] == names[1..][i - 1];
  }

  lemma AllNamesAreDotted(names: seq<string>)
    requires names != [] && names[0] != ""
    ensures IsDottedFrom(names, 0, Join([names[0]] + names[1..], "."))
  {
    assert [names[0]] + names[1..] == names == names[0..];
  }

  lemma MatchesAreLeavesNamed(data: Value, key: string, names: seq<string>)
    ensures IsMatch(data, key, names) <==> exists value :: IsLeafNamed(data, key, names, value)
    ensures IsMatch(data, key, names) ==> IsLeafNamed(data, key, names, At(data, names).value)
  {
    hide LeadsTo, At;
    if IsMatch(data, key, names) {
      WhereNamesLead(data, names, At(data, names).value);
      assert IsLeafNamed(data, key, names, At(data, names).value);
    }
    if value :| IsLeafNamed(data, key, names, value) {
      WhereNamesLead(data, names, value);
    }
  }

  lemma WhatATokenStandsFor(token: Token, env: Env)
    requires MeaningOf(token, env).Success?
    ensures StandsFor(token, env, MeaningOf(token, env).value)
  {
    hide ConfigText, CustomValue, LeadsTo, At, Inserts, ConfigInserts, IsDotted, Spelled;
    match token {
      case Short(key) => AShortStandsFor(key, env);
      case Config(path) =>
        var m := MeaningOf(token, env).value;
        var found := At(env.central, Split(path, '.')).value;
        WhereNamesLead(env.central, Split(path, '.'), found);
        ConfigTextInserts(found, Spelled(FromConfig(path)), env.root, m.text);
      case Custom(path) =>
        var names := Split("workflow." + path, '.');
        var found, default := At(env.customization, names).value, At(env.defaults.value, names).value;
        WhereNamesLead(env.customization, names, found);
        WhereNamesLead(env.defaults.value, names, default);
        WhatACustomizationInserts(found, default, Spelled(FromCustomization(path)));
    }
  }

  lemma AShortStandsFor(key: string, env: Env)
    requires MeaningOf(Short(key), env).Success?
    ensures StandsFor(Short(key), env, MeaningOf(Short(key), env).value)
  {
    hide ConfigText, PlaceOf, LeadsTo, At, ConfigInserts, IsDotted, Spelled, IsLeafNamed, IsMatch, PathFrom;
    var m := MeaningOf(Short(key), env).value;
    var names := PlaceOf(env.central, key).value;
    var path, found := PathFrom("", names), At(env.central, names).value;
    ThePlaceIsTheOnlyMatch(env.central, key);
    ThePathIsDotted(names);
    MatchesAreLeavesNamed(env.central, key, names);
    forall others, v | IsLeafNamed(env.central, key, others, v) ensures others == names {
      MatchesAreLeavesNamed(env.central, key, others);
    }
    ConfigTextInserts(found, Spelled(FromConfig(path)), env.root, m.text);
  }

  ghost predicate NothingAt(data: Value, names: seq<string>) {
    forall value :: !LeadsTo(data, names, value)
  }

  lemma NothingIsFound(data: Value, names: seq<string>)
    ensures NothingAt(data, names) <==> At(data, names).None?
  {
    hide At, LeadsTo;
    forall value ensures At(data, names) == Some(value) <==> LeadsTo(data, names, value) {
      WhereNamesLead(data, names, value);
    }
    if At(data, names).Some? {
      assert LeadsTo(data, names, At(data, names).value);
    }
  }

  /** Why a token is refused before its value is looked at: no leaf of that key or more than one, nothing at
    * the path, or no defaults to go by. */
  lemma WhyATokenIsRefused(token: Token, env: Env)
    ensures token.Short? && (forall names, value :: !IsLeafNamed(env.central, token.key, names, value)) ==>
      MeaningOf(token, env) == Failure(MissingKey(token.key))
    ensures token.Short? && LeavesApart(env.central, token.key) ==>
      MeaningOf(token, env) == Failure(AmbiguousKey(token.key))
    ensures token.Config? && NothingAt(env.central, Split(token.path, '.')) ==>
      MeaningOf(token, env) == Failure(MissingValue("config." + token.path))
    ensures token.Custom? && env.defaults.None? ==> MeaningOf(token, env) == Failure(NoCustomization)
    ensures token.Custom? && env.defaults.Some? ==>
      var names := Split("workflow." + token.path, '.');
      NothingAt(env.customization, names) || NothingAt(env.defaults.value, names) ==>
        MeaningOf(token, env) == Failure(MissingValue("customization.workflow." + token.path))
  {
    hide NothingAt, At, IsLeafNamed, LeavesApart, ConfigText, CustomValue, IsMatch;
    match token {
      case Short(key) => WhyAShortKeyIsRefused(key, env.central);
      case Config(path) => NothingIsFound(env.central, Split(path, '.'));
      case Custom(path) =>
        NothingIsFound(env.customization, Split("workflow." + path, '.'));
        if env.defaults.Some? {
          NothingIsFound(env.defaults.value, Split("workflow." + path, '.'));
        }
    }
  }

  /** Two places hold a leaf of the key. */
  ghost predicate LeavesApart(data: Value, key: string) {
    exists names, value, others, other ::
      IsLeafNamed(data, key, names, value) && IsLeafNamed(data, key, others, other) && names != others
  }

  lemma WhyAShortKeyIsRefused(key: string, central: Value)
    ensures (forall names, value :: !IsLeafNamed(central, key, names, value)) ==>
      PlaceOf(central, key) == Failure(MissingKey(key))
    ensures LeavesApart(central, key) ==> PlaceOf(central, key) == Failure(AmbiguousKey(key))
  {
    hide IsLeafNamed, IsMatch;
    forall names ensures IsMatch(central, key, names) <==> exists value :: IsLeafNamed(central, key, names, value) {
      MatchesAreLeavesNamed(central, key, names);
    }
    if LeavesApart(central, key) {
      var names, value, others, other :|
        IsLeafNamed(central, key, names, value) && IsLeafNamed(central, key, others, other) && names != others;
      assert IsMatch(central, key, names) && IsMatch(central, key, others);
    }
  }

  // ------------------------------------------------------------------------------------- outputs

  /** What one piece of a source inserts: prose as it is, a replacement, or a path in the snapshot. */
  ghost predicate PieceInserts(piece: Piece, view: View, text: string) {
    match piece
    case Literal(prose) => text == prose
    case Tok(token) =>
      token in view.replacements
      && if token.Custom? then Replaced(view.replacements[token], "{skill-root}", view.destination, text)
         else text == view.replacements[token]
    case Snapshot(target) => target in view.names && text == view.destination + "/" + target
  }

  ghost predicate PiecesInsert(pieces: seq<Piece>, view: View, texts: seq<string>) {
    |texts| == |pieces| && forall i :: 0 <= i < |pieces| ==> PieceInserts(pieces[i], view, texts[i])
  }

  lemma WhatAPieceInserts(piece: Piece, view: View, text: string)
    requires piece.Tok? ==> piece.token in view.replacements
    ensures RenderedPiece(piece, view) == Success(text) <==> PieceInserts(piece, view, text)
  {
    hide ReplaceAll, Replaced;
    TheMarksAreApart();
    if piece.Tok? {
      ReplaceAllReplaces(view.replacements[piece.token], "{skill-root}", view.destination, text);
    }
  }

  /** A source renders to what its pieces insert, in order and nothing between them. */
  lemma {:induction false} WhatASourceRendersTo(pieces: seq<Piece>, view: View, text: string)
    requires forall i :: 0 <= i < |pieces| && pieces[i].Tok? ==> pieces[i].token in view.replacements
    ensures RenderedPieces(pieces, view) == Success(text)
      <==> exists texts :: PiecesInsert(pieces, view, texts) && text == Join(texts, "")
  {
    hide RenderedPiece, PieceInserts;
    if pieces == [] {
      assert PiecesInsert(pieces, view, []);
    } else {
      var n := |pieces| - 1;
      if RenderedPieces(pieces, view) == Success(text) {
        var before, last := RenderedPieces(pieces[..n], view).value, RenderedPiece(pieces[n], view).value;
        WhatASourceRendersTo(pieces[..n], view, before);
        WhatAPieceInserts(pieces[n], view, last);
        var texts :| PiecesInsert(pieces[..n], view, texts) && before == Join(texts, "");
        JoinLast(texts, last);
        assert PiecesInsert(pieces, view, texts + [last]);
      }
      if texts :| PiecesInsert(pieces, view, texts) && text == Join(texts, "") {
        WhatASourceRendersTo(pieces[..n], view, Join(texts[..n], ""));
        assert PiecesInsert(pieces[..n], view, texts[..n]);
        WhatAPieceInserts(pieces[n], view, texts[n]);
        assert texts == texts[..n] + [texts[n]];
        JoinLast(texts[..n], texts[n]);
      }
    }
  }

  lemma {:induction false} JoinLast(texts: seq<string>, last: string)
    ensures Join(texts + [last], "") == Join(texts, "") + last
  {
    if texts == [] {
      assert texts + [last] == [last];
    } else {
      JoinTogether(texts, [last], "");
      assert Join(texts, "") + "" + last == Join(texts, "") + last;
    }
  }

  /** A piece of a rendering shows what its token stands for. */
  ghost predicate PieceShows(piece: Piece, x: Rendering, at: Setting, text: string) {
    var destination := at.formats.place(x.identity);
    match piece
    case Literal(prose) => text == prose
    case Tok(token) =>
      exists m ::
        StandsFor(token, x.env, m)
        && if token.Custom? then Replaced(m.text, "{skill-root}", destination, text) else text == m.text
    case Snapshot(target) => target in x.sources && text == destination + "/" + target
  }

  /** What one render writes for a source: its prose verbatim and in order, and at each token's place
    * what that token stands for. */
  lemma WhatARenderWrites(x: Rendering, at: Setting, name: string) returns (texts: seq<string>)
    requires Renders(x, at) && name in x.sources
    ensures name in x.outputs && x.outputs[name] == Join(texts, "")
    ensures var pieces := at.formats.pieces(x.sources[name]);
      |texts| == |pieces| && forall i :: 0 <= i < |pieces| ==> PieceShows(pieces[i], x, at, texts[i])
  {
    WhatARenderingHolds(x, at);
    AnOutputIsRendered(x, at, name);
    hide Renders, Resolves, RenderedPieces, PieceInserts, StandsFor, Replaced;
    var pieces, view := at.formats.pieces(x.sources[name]), x.Seen(at);
    WhatASourceRendersTo(pieces, view, x.outputs[name]);
    texts :| PiecesInsert(pieces, view, texts) && x.outputs[name] == Join(texts, "");
    forall i | 0 <= i < |pieces| ensures PieceShows(pieces[i], x, at, texts[i]) {
      assert pieces[i] in pieces;
      APieceShows(pieces[i], x, at, texts[i]);
    }
  }

  lemma APieceShows(piece: Piece, x: Rendering, at: Setting, text: string)
    requires Resolves(x.tokens, x.env, x.res) && PieceInserts(piece, x.Seen(at), text)
    requires piece.Tok? ==> piece.token in x.tokens
    ensures PieceShows(piece, x, at, text)
  {
    hide StandsFor, Replaced, MeaningOf;
    if piece.Tok? {
      EachMeans(piece.token, x.tokens, x.env, x.res);
      WhatATokenStandsFor(piece.token, x.env);
    }
  }

  // ------------------------------------------------------------------------------------ identities

  ghost predicate IsKeyOf(source: Source, key: string) {
    match source
    case FromConfig(path) => key == "config." + path
    case FromCustomization(path) => key == "customization.workflow." + path
  }

  /** The token's value is recorded under the name of where it is read. */
  ghost predicate Records(token: Token, env: Env, values: map<string, Value>, key: string) {
    exists m ::
      StandsFor(token, env, m) && IsKeyOf(m.source, key) && key in values && values[key] == m.value
  }

  /** The identity a generation is named after records what each token stands for, and nothing else. */
  lemma WhatTheIdentityRecords(x: Rendering, at: Setting)
    requires Renders(x, at)
    ensures forall token :: token in x.tokens ==> exists key :: Records(token, x.env, x.identity.values, key)
    ensures forall key :: key in x.identity.values ==>
      exists token :: token in x.tokens && Records(token, x.env, x.identity.values, key)
  {
    WhatARenderingHolds(x, at);
    hide Renders, Resolves, StandsFor, MeaningOf, SpelledValues, Records, Spelled;
    forall token | token in x.tokens ensures exists key :: Records(token, x.env, x.identity.values, key) {
      var key := ATokenIsRecorded(x, token);
    }
    forall key | key in x.identity.values
      ensures exists token :: token in x.tokens && Records(token, x.env, x.identity.values, key)
    {
      var source := ASpelledSource(x.res.inputs, key);
      var token := EachIsSourced(source, x.tokens, x.env, x.res);
      var other := ATokenIsRecorded(x, token);
    }
  }

  lemma ASpelledSource(inputs: map<Source, Value>, key: string) returns (source: Source)
    requires key in SpelledValues(inputs)
    ensures source in inputs && Spelled(source) == key
  {
    source :| source in inputs && Spelled(source) == key;
  }

  lemma ATokenIsRecorded(x: Rendering, token: Token) returns (key: string)
    requires Resolves(x.tokens, x.env, x.res) && x.identity.values == SpelledValues(x.res.inputs) && token in x.tokens
    ensures Records(token, x.env, x.identity.values, key)
    ensures MeaningOf(token, x.env).Success? && key == Spelled(MeaningOf(token, x.env).value.source)
  {
    hide StandsFor, MeaningOf, Resolves;
    EachMeans(token, x.tokens, x.env, x.res);
    WhatATokenStandsFor(token, x.env);
    SpellingsApart();
    var m := MeaningOf(token, x.env).value;
    key := Spelled(m.source);
    assert IsKeyOf(m.source, key);
  }
}
