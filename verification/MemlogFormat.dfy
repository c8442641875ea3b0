/** What the memory log's text says, told of the characters: words, lines, fields and entries. */
module MemlogFormat {
  import opened Core
  import opened Text
  import opened Lines
  import opened Memlog
  import opened MemlogRuns

  // ----------------------------------------------------------------------------------- fields

  /** One line as a field: what stands before its first separator and what stands after, stripped. */
  ghost predicate Cut(line: string, sep: char, key: string, value: string) {
    exists a, b :: line == a + [sep] + b && sep !in a && StripsTo(a, key, IsSpace) && StripsTo(b, value, IsSpace)
  }

  ghost predicate Names(line: string, sep: char, key: string) {
    exists value :: Cut(line, sep, key, value)
  }

  /** The line is the last one that names the key. */
  ghost predicate LastCut(lines: seq<string>, sep: char, i: int, key: string, value: string) {
    0 <= i < |lines| && Cut(lines[i], sep, key, value) && forall j :: i < j < |lines| ==> !Names(lines[j], sep, key)
  }

  /** Some line names `key`, and no line up to that one names `other`. */
  ghost predicate NamedBefore(lines: seq<string>, sep: char, key: string, other: string) {
    exists p ::
      0 <= p < |lines| && Names(lines[p], sep, key) && forall q :: 0 <= q <= p ==> !Names(lines[q], sep, other)
  }

  /** The fields of these lines: each key once, where it was first named, with the last value given it. */
  ghost predicate FieldsOf(lines: seq<string>, sep: char, fields: Fields) {
    && (forall key, value :: (key, value) in fields <==> exists i :: LastCut(lines, sep, i, key, value))
    && (forall i, j :: 0 <= i < j < |fields| ==> NamedBefore(lines, sep, fields[i].0, fields[j].0))
  }

  lemma CutIs(line: string, sep: char, k: nat, key: string, value: string)
    requires k < |line| && sep !in line[..k] && line[k] == sep
    ensures Cut(line, sep, key, value) <==> key == Strip(line[..k]) && value == Strip(line[k + 1..])
  {
    hide StripsTo, IsSpace, Trim;
    var a, b := line[..k], line[k + 1..];
    assert line == a + [sep] + b;
    TrimStrips(a, key, IsSpace);
    TrimStrips(b, value, IsSpace);
    if Cut(line, sep, key, value) {
      var x, y :| line == x + [sep] + y && sep !in x && StripsTo(x, key, IsSpace) && StripsTo(y, value, IsSpace);
      OneFirstSeparator(line, sep, k, x, y);
    }
  }

  lemma OneFirstSeparator(line: string, sep: char, k: nat, x: string, y: string)
    requires k < |line| && sep !in line[..k] && line[k] == sep
    requires line == x + [sep] + y && sep !in x
    ensures x == line[..k] && y == line[k + 1..]
  {
    forall i | 0 <= i < k ensures line[i] != sep { assert line[..k][i] == line[i]; }
    forall i | 0 <= i < |x| ensures line[i] != sep { assert x[i] == line[i]; }
    assert line[|x|] == sep;
  }

  lemma ACutHasItsSeparator(line: string, sep: char, key: string)
    requires Names(line, sep, key)
    ensures sep in line
  {
    hide StripsTo;
    var value :| Cut(line, sep, key, value);
    var a, b :| line == a + [sep] + b && sep !in a && StripsTo(a, key, IsSpace) && StripsTo(b, value, IsSpace);
    assert line[|a|] == sep;
  }

  lemma CutNames(line: string, sep: char, key: string, value: string)
    requires Cut(line, sep, key, value)
    ensures forall k, v :: Cut(line, sep, k, v) <==> k == key && v == value
    ensures forall k :: Names(line, sep, k) <==> k == key
  {
    var a, b :| line == a + [sep] + b && sep !in a && StripsTo(a, key, IsSpace) && StripsTo(b, value, IsSpace);
    assert line[..|a|] == a;
    forall k, v ensures Cut(line, sep, k, v) <==> k == key && v == value {
      CutIs(line, sep, |a|, k, v);
      CutIs(line, sep, |a|, key, value);
    }
  }

  /** A line that names nothing changes no field. */
  lemma ASilentLineAddsNothing(lines: seq<string>, sep: char, line: string, fields: Fields)
    requires FieldsOf(lines, sep, fields) && forall key :: !Names(line, sep, key)
    ensures FieldsOf(lines + [line], sep, fields)
  {
    hide Cut, StripsTo;
    var all := lines + [line];
    forall key, value, i ensures LastCut(all, sep, i, key, value) <==> LastCut(lines, sep, i, key, value) {
      LastCutBefore(lines, sep, line, i, key, value);
    }
    forall i, j | 0 <= i < j < |fields| ensures NamedBefore(all, sep, fields[i].0, fields[j].0) {
      StillNamedBefore(lines, sep, line, fields[i].0, fields[j].0);
    }
  }

  lemma LastCutBefore(lines: seq<string>, sep: char, line: string, i: int, key: string, value: string)
    requires !Names(line, sep, key)
    ensures LastCut(lines + [line], sep, i, key, value) <==> LastCut(lines, sep, i, key, value)
  {
    hide Cut;
    var all := lines + [line];
    assert all[|lines|] == line;
    assert Cut(line, sep, key, value) ==> Names(line, sep, key);
    assert forall j :: 0 <= j < |lines| ==> all[j] == lines[j];
  }

  lemma StillNamedBefore(lines: seq<string>, sep: char, line: string, key: string, other: string)
    requires NamedBefore(lines, sep, key, other)
    ensures NamedBefore(lines + [line], sep, key, other)
  {
    hide Names;
    var p :| 0 <= p < |lines| && Names(lines[p], sep, key) && forall q :: 0 <= q <= p ==> !Names(lines[q], sep, other);
    assert forall q :: 0 <= q <= p ==> (lines + [line])[q] == lines[q];
  }

  ghost predicate FirstNamed(fields: Fields, key: string, i: int) {
    0 <= i < |fields| && fields[i].0 == key && forall j :: 0 <= j < i ==> fields[j].0 != key
  }

  /** What a set changes: the value at the one place of the key, or one more place at the end. */
  lemma {:induction false} WhatASetChanges(fields: Fields, key: string, value: string) returns (i: nat)
    ensures i <= |fields|
    ensures i < |fields| ==>
      FirstNamed(fields, key, i) && SetField(fields, key, value) == fields[..i] + [(key, value)] + fields[i + 1..]
    ensures i == |fields| ==> SetField(fields, key, value) == fields + [(key, value)]
    ensures i == |fields| ==> forall j :: 0 <= j < |fields| ==> fields[j].0 != key
  {
    i := 0;
    if fields != [] && fields[0].0 != key {
      var rest := fields[1..];
      i := WhatASetChanges(rest, key, value);
      assert fields == [fields[0]] + rest;
      if i < |rest| {
        assert rest[i + 1..] == fields[i + 2..] && fields[..i + 1] == [fields[0]] + rest[..i];
      }
      i := i + 1;
    }
  }

  /** What a stamp changes: the key's one place goes, every other field stays in its order. */
  lemma {:induction false} WhatARemovalChanges(fields: Fields, key: string) returns (i: nat)
    ensures i <= |fields|
    ensures i < |fields| ==> FirstNamed(fields, key, i) && RemoveField(fields, key) == fields[..i] + fields[i + 1..]
    ensures i == |fields| ==> RemoveField(fields, key) == fields
    ensures i == |fields| ==> forall j :: 0 <= j < |fields| ==> fields[j].0 != key
  {
    i := 0;
    if fields != [] && fields[0].0 != key {
      var rest := fields[1..];
      i := WhatARemovalChanges(rest, key);
      assert fields == [fields[0]] + rest;
      if i < |rest| {
        assert rest[i + 1..] == fields[i + 2..] && fields[..i + 1] == [fields[0]] + rest[..i];
      }
      i := i + 1;
    }
  }

  lemma KeysAreOnce(lines: seq<string>, sep: char, fields: Fields)
    requires FieldsOf(lines, sep, fields)
    ensures forall i, j :: 0 <= i < j < |fields| ==> fields[i].0 != fields[j].0
  {
    forall i, j | 0 <= i < j < |fields| ensures fields[i].0 != fields[j].0 {
      NotBeforeItself(lines, sep, fields[i].0, fields[j].0);
    }
  }

  lemma NotBeforeItself(lines: seq<string>, sep: char, key: string, other: string)
    requires NamedBefore(lines, sep, key, other)
    ensures key != other
  {
    hide Names;
  }

  lemma {:induction false} ANameHasItsLastLine(lines: seq<string>, sep: char, p: nat, key: string)
    returns (q: nat, value: string)
    requires p < |lines| && Names(lines[p], sep, key)
    ensures LastCut(lines, sep, q, key, value)
    decreases |lines| - p
  {
    hide Cut;
    if j :| p < j < |lines| && Names(lines[j], sep, key) {
      q, value := ANameHasItsLastLine(lines, sep, j, key);
    } else {
      q := p;
      value :| Cut(lines[p], sep, key, value);
    }
  }

  lemma NamedExactlyWhenAField(lines: seq<string>, sep: char, fields: Fields, key: string)
    requires FieldsOf(lines, sep, fields)
    ensures (exists p :: 0 <= p < |lines| && Names(lines[p], sep, key)) <==> exists v :: (key, v) in fields
  {
    hide Cut, NamedBefore;
    if p :| 0 <= p < |lines| && Names(lines[p], sep, key) {
      var q, v := ANameHasItsLastLine(lines, sep, p, key);
      assert (key, v) in fields;
    }
    if v :| (key, v) in fields {
      var q :| LastCut(lines, sep, q, key, v);
      assert Names(lines[q], sep, key);
    }
  }

  lemma TheLastLineDecides(lines: seq<string>, sep: char, line: string, key: string, value: string, v: string)
    requires Cut(line, sep, key, value)
    ensures (exists p :: LastCut(lines + [line], sep, p, key, v)) <==> v == value
  {
    CutNames(line, sep, key, value);
    hide Cut, Names;
    var all := lines + [line];
    assert all[|lines|] == line;
    if v == value {
      assert LastCut(all, sep, |lines|, key, v);
    }
    forall p | LastCut(all, sep, p, key, v) ensures p == |lines| {
      assert Names(line, sep, key);
    }
  }

  /** One more line that names a key: its field is set, and the fields are those of one line more. */
  lemma ANamingLineSets(lines: seq<string>, sep: char, line: string, fields: Fields, key: string, value: string)
    requires FieldsOf(lines, sep, fields) && Cut(line, sep, key, value)
    ensures FieldsOf(lines + [line], sep, SetField(fields, key, value))
  {
    hide Cut, Names, LastCut, NamedBefore, FirstNamed, SetField;
    var after, all := SetField(fields, key, value), lines + [line];
    KeysAreOnce(lines, sep, fields);
    CutNames(line, sep, key, value);
    forall k, v ensures (k, v) in after <==> exists p :: LastCut(all, sep, p, k, v) {
      WhichFieldsAfterASet(fields, key, value, k, v);
      if k == key {
        TheLastLineDecides(lines, sep, line, key, value, v);
      } else {
        forall p ensures LastCut(all, sep, p, k, v) <==> LastCut(lines, sep, p, k, v) {
          LastCutBefore(lines, sep, line, p, k, v);
        }
      }
    }
    forall a, b | 0 <= a < b < |after| ensures NamedBefore(all, sep, after[a].0, after[b].0) {
      SetFieldSets(fields, key, value);
      if b < |fields| {
        StillNamedBefore(lines, sep, line, fields[a].0, fields[b].0);
      } else {
        ANewKeyComesLast(lines, sep, line, fields, a, key);
      }
    }
  }

  lemma WhichFieldsAfterASet(fields: Fields, key: string, value: string, k: string, v: string)
    requires forall i, j :: 0 <= i < j < |fields| ==> fields[i].0 != fields[j].0
    ensures (k, v) in SetField(fields, key, value) <==> if k == key then v == value else (k, v) in fields
  {
    hide SetField;
    var after := SetField(fields, key, value);
    var i := WhatASetChanges(fields, key, value);
    if i < |fields| {
      assert after[i] == (key, value);
      assert forall j :: 0 <= j < |fields| && j != i ==> after[j] == fields[j] && fields[j].0 != key;
    } else {
      assert after[i] == (key, value);
      assert forall j :: 0 <= j < |fields| ==> after[j] == fields[j];
    }
  }

  lemma ANewKeyComesLast(lines: seq<string>, sep: char, line: string, fields: Fields, a: nat, key: string)
    requires FieldsOf(lines, sep, fields) && a < |fields|
    requires forall i :: 0 <= i < |fields| ==> fields[i].0 != key
    ensures NamedBefore(lines + [line], sep, fields[a].0, key)
  {
    hide Cut, Names, LastCut;
    NamedExactlyWhenAField(lines, sep, fields, key);
    NamedExactlyWhenAField(lines, sep, fields, fields[a].0);
    assert fields[a] == (fields[a].0, fields[a].1) && fields[a] in fields;
    var p :| 0 <= p < |lines| && Names(lines[p], sep, fields[a].0);
    var all := lines + [line];
    assert forall q :: 0 <= q <= p ==> all[q] == lines[q];
  }

  lemma NoLinesNoFields(sep: char)
    ensures FieldsOf([], sep, [])
  {
  }

  /** The frontmatter's fields. */
  lemma {:induction false} WhatTheFrontmatterSays(lines: seq<string>)
    ensures FieldsOf(lines, ':', ParseAll(lines))
  {
    hide Cut, Names, FieldsOf, Strip, SetField;
    if lines == [] {
      NoLinesNoFields(':');
    } else {
      var n := |lines| - 1;
      var line, before := lines[n], lines[..n];
      assert lines == before + [line];
      WhatTheFrontmatterSays(before);
      var k := FirstColon(line);
      if k == |line| {
        NothingIsNamed(line, ':');
        ASilentLineAddsNothing(before, ':', line, ParseAll(before));
      } else {
        CutIs(line, ':', k, Strip(line[..k]), Strip(line[k + 1..]));
        ANamingLineSets(before, ':', line, ParseAll(before), Strip(line[..k]), Strip(line[k + 1..]));
      }
    }
  }

  lemma NothingIsNamed(line: string, sep: char)
    requires sep !in line
    ensures forall key :: !Names(line, sep, key)
  {
    hide Names;
    forall key ensures !Names(line, sep, key) {
      if Names(line, sep, key) {
        ACutHasItsSeparator(line, sep, key);
      }
    }
  }

  /** The arguments of `init`: refused exactly when one of them has no `=`, and otherwise its fields. */
  lemma {:induction false} WhatInitIsGiven(pairs: seq<string>)
    ensures InitFields(pairs).Some? <==> forall i :: 0 <= i < |pairs| ==> '=' in pairs[i]
    ensures InitFields(pairs).Some? ==> FieldsOf(pairs, '=', InitFields(pairs).value)
  {
    hide Cut, Names, FieldsOf, Strip, SetField;
    if pairs == [] {
      NoLinesNoFields('=');
    } else {
      var n := |pairs| - 1;
      var pair, before := pairs[n], pairs[..n];
      assert pairs == before + [pair];
      WhatInitIsGiven(before);
      var k := FirstEquals(pair);
      assert k < |pair| <==> '=' in pair;
      if InitFields(before).Some? && k < |pair| {
        CutIs(pair, '=', k, Strip(pair[..k]), Strip(pair[k + 1..]));
        ANamingLineSets(before, '=', pair, InitFields(before).value, Strip(pair[..k]), Strip(pair[k + 1..]));
      }
    }
  }

  // ------------------------------------------------------------------------------------- text

  ghost predicate FencedAt(lines: seq<string>, end: int) {
    0 < end < |lines| && lines[0] == "---" && lines[end] == "---" && forall i :: 0 < i < end ==> lines[i] != "---"
  }

  /** `body` is these lines joined, without the newlines it would start with. */
  ghost predicate BodyIs(lines: seq<string>, body: string) {
    (body == "" || body[0] != '\n') && exists cut :: Join(lines, "\n") == cut + body && AllOut(cut, IsNewline)
  }

  /** What a file's text says, by its lines: frontmatter between the first line and the next fence,
    * the body after it; and the two ways it can say nothing. */
  lemma WhatAFileSays(text: string, lines: seq<string>)
    requires Broken(text, lines)
    ensures lines == [] || lines[0] != "---" <==> SplitText(text) == Failure(NoFrontmatter)
    ensures SplitText(text) == Failure(FrontmatterNotTerminated) <==>
      lines != [] && lines[0] == "---" && forall i :: 0 < i < |lines| ==> lines[i] != "---"
    ensures forall end :: FencedAt(lines, end) ==> Says(text, lines, end)
    ensures SplitText(text).Success? ==> exists end :: FencedAt(lines, end)
  {
    SplitLinesAreTheBrokenParts(text, lines);
    hide Broken, SplitLines, ParseAll, BodyOf, FieldsOf;
    if lines != [] && lines[0] == "---" {
      var end := FenceAt(lines[1..]);
      assert forall i :: 0 < i < |lines| ==> lines[i] == lines[1..][i - 1];
      if end < |lines| - 1 {
        assert FencedAt(lines, end + 1);
        assert forall e :: FencedAt(lines, e) ==> e == end + 1;
        assert lines[1..][..end] == lines[1..end + 1] && lines[1..][end + 1..] == lines[end + 2..];
        WhatTheFrontmatterSays(lines[1..end + 1]);
        WhatTheBodyIs(lines[end + 2..]);
      }
    }
  }

  ghost predicate Says(text: string, lines: seq<string>, end: int)
    requires FencedAt(lines, end)
  {
    exists meta, body ::
      SplitText(text) == Success((meta, body)) && FieldsOf(lines[1..end], ':', meta) && BodyIs(lines[end + 1..], body)
  }

  lemma WhatTheBodyIs(lines: seq<string>)
    ensures BodyIs(lines, BodyOf(lines))
  {
    hide Join, TrimLeft;
    WhatIsTrimmedLeft(Join(lines, "\n"), TrimLeft(Join(lines, "\n"), IsNewline));
  }

  lemma WhatIsTrimmedLeft(all: string, body: string)
    requires |body| <= |all| && body == all[|all| - |body|..]
    requires forall i :: 0 <= i < |all| - |body| ==> IsNewline(all[i])
    ensures exists cut :: all == cut + body && AllOut(cut, IsNewline)
  {
    var cut := all[..|all| - |body|];
    assert all == cut + body && AllOut(cut, IsNewline);
  }

  /** A key, and its value with the value's lines joined by spaces. */
  ghost predicate IsFieldLine(line: string, field: (string, string)) {
    exists lines :: Broken(field.1, lines) && line == field.0 + ": " + Join(lines, " ")
  }

  /** How a file is laid out: the fenced fields, a blank line, and the body without its last newlines. */
  lemma HowAFileIsLaidOut(fields: Fields, front: seq<string>, kept: string, cut: string, rest: seq<string>)
    requires GoodFields(fields) && fields != []
    requires |front| == |fields| && forall i :: 0 <= i < |front| ==> IsFieldLine(front[i], fields[i])
    requires AllOut(cut, IsNewline) && (kept == "" || kept[|kept| - 1] != '\n') && Broken(kept + "\n", rest)
    ensures Broken(Render(fields, kept + cut), ["---"] + front + (["---", ""] + rest))
  {
    hide Broken, SplitLines, Render, GoodFields, TrimRight;
    RenderedLines(fields, kept + cut);
    forall i | 0 <= i < |front| ensures front[i] == FieldLines(fields)[i] {
      TheFieldLineIs(front[i], fields[i]);
    }
    assert front == FieldLines(fields);
    CutAtTheEnd(kept, cut);
    SplitLinesAreTheBrokenParts(kept + "\n", rest);
    SplitLinesAreTheBrokenParts(Render(fields, kept + cut), ["---"] + front + (["---", ""] + rest));
  }

  lemma TheFieldLineIs(line: string, field: (string, string))
    requires IsFieldLine(line, field)
    ensures line == FieldLine(field)
  {
    hide Broken, SplitLines;
    var lines :| Broken(field.1, lines) && line == field.0 + ": " + Join(lines, " ");
    SplitLinesAreTheBrokenParts(field.1, lines);
  }

  lemma CutAtTheEnd(kept: string, cut: string)
    requires AllOut(cut, IsNewline) && (kept == "" || kept[|kept| - 1] != '\n')
    ensures TrimRight(kept + cut, IsNewline) == kept
  {
    hide TrimRight;
    var s := kept + cut;
    assert forall i :: |kept| <= i < |s| ==> s[i] == cut[i - |kept|] && IsNewline(s[i]);
    assert kept != "" ==> s[|kept| - 1] == kept[|kept| - 1];
  }

  // ---------------------------------------------------------------------------------- entries

  /** The inline tag: nothing, or the kind and who it came from in parentheses. */
  ghost predicate IsTag(tag: string, kind: string, who: string) {
    && (who == "" && kind == "" ==> tag == "")
    && (who == "" && kind != "" ==> tag == "(" + kind + ") ")
    && (who != "" ==> exists origin :: StripsTo(kind + " by " + who, origin, IsSpace) && tag == "(" + origin + ") ")
  }

  /** One line that carries a text: a dash, its tag, and the words of the text with a space between. */
  ghost predicate Carries(line: string, text: string, kind: string, who: string) {
    exists tag, words :: IsTag(tag, kind, who) && Spaced(text, words) && line == "- " + tag + Join(words, " ")
  }

  /** An entry carries its text, and only one line does: its words, in order, are the text's. */
  lemma AnEntryCarriesItsText(line: string, text: string, kind: string, who: string)
    ensures line == Entry(text, kind, who) <==> Carries(line, text, kind, who)
  {
    hide Words, Spaced, IsTag, Join, Label;
    WordsAreTheSpacedParts(text, Words(text));
    TheTagIs(kind, who);
    var origin := Label(kind, who);
    var tag := if origin == "" then "" else "(" + origin + ") ";
    assert Entry(text, kind, who) == "- " + tag + Join(Words(text), " ");
    if Carries(line, text, kind, who) {
      var t, words :| IsTag(t, kind, who) && Spaced(text, words) && line == "- " + t + Join(words, " ");
      WordsAreTheSpacedParts(text, words);
      OneTag(t, tag, kind, who);
    }
  }

  /** After its tag the line has the words of the argument, in order, and no others. */
  lemma AnEntryHasTheWordsOfItsText(text: string, words: seq<string>)
    ensures Spaced(Collapse(text), words) <==> Spaced(text, words)
  {
    hide Spaced, Words, IsWord;
    WordsAreTheSpacedParts(text, words);
    WordsAreTheSpacedParts(text, Words(text));
    WordsAreTheSpacedParts(Collapse(text), words);
    SpacedPartsAreWords(text, Words(text));
    JoinedWordsAreSpaced(Words(text));
    WordsAreTheSpacedParts(Collapse(text), Words(text));
  }

  lemma SpacedPartsAreWords(text: string, words: seq<string>)
    requires Spaced(text, words)
    ensures forall i :: 0 <= i < |words| ==> IsWord(words[i])
  {
    hide IsWord, AllOut;
  }

  lemma TheTagIs(kind: string, who: string)
    ensures var origin := Label(kind, who);
      IsTag(if origin == "" then "" else "(" + origin + ") ", kind, who)
  {
    if who != "" {
      TrimStrips(kind + " by " + who, Label(kind, who), IsSpace);
      ByIsNotBlank(kind, who, Label(kind, who));
    }
  }

  lemma ByIsNotBlank(kind: string, who: string, origin: string)
    requires StripsTo(kind + " by " + who, origin, IsSpace)
    ensures origin != ""
  {
    hide IsSpace;
    var s := kind + " by " + who;
    var a, b :| s == a + origin + b && AllOut(a, IsSpace) && AllOut(b, IsSpace);
    BIsNoSpace();
    assert s[|kind| + 1] == 'b';
    assert forall i :: 0 <= i < |a| ==> s[i] == a[i];
    assert forall i :: |a| + |origin| <= i < |s| ==> s[i] == b[i - |a| - |origin|];
  }

  lemma BIsNoSpace()
    ensures !IsSpace('b')
  {
  }

  lemma OneTag(a: string, b: string, kind: string, who: string)
    requires IsTag(a, kind, who) && IsTag(b, kind, who)
    ensures a == b
  {
    if who != "" {
      var x :| StripsTo(kind + " by " + who, x, IsSpace) && a == "(" + x + ") ";
      var y :| StripsTo(kind + " by " + who, y, IsSpace) && b == "(" + y + ") ";
      TrimStrips(kind + " by " + who, x, IsSpace);
      TrimStrips(kind + " by " + who, y, IsSpace);
    }
  }

  /** Whatever stands in the file, the entry goes after all of it but its last newlines. */
  lemma WhereAnEntryGoes(body: string, entry: string)
    ensures AllOut(body, IsSpace) ==> Appended(body, entry) == entry
    ensures !AllOut(body, IsSpace) ==>
      exists kept, cut ::
        && body == kept + cut && AllOut(cut, IsNewline) && (kept == "" || kept[|kept| - 1] != '\n')
        && Appended(body, entry) == kept + "\n" + entry
  {
    BlankIsAllSpace(body);
    if !AllOut(body, IsSpace) {
      hide IsSpace, Strip, TrimRight;
      var kept := TrimRight(body, IsNewline);
      var cut := body[|kept|..];
      assert body == kept + cut && AllOut(cut, IsNewline);
    }
  }

  /** The count a command acknowledges is the number of lines that start as entries do. */
  lemma {:induction false} TheCountIsOfEntryLines(lines: seq<string>)
    ensures CountEntries(lines)
         == |set i | 0 <= i < |lines| && |lines[i]| >= 2 && lines[i][0] == '-' && lines[i][1] == ' '|
  {
    if lines != [] {
      var n := |lines| - 1;
      var before := lines[..n];
      TheCountIsOfEntryLines(before);
      var earlier := set i | 0 <= i < n && |before[i]| >= 2 && before[i][0] == '-' && before[i][1] == ' ';
      var all := set i | 0 <= i < |lines| && |lines[i]| >= 2 && lines[i][0] == '-' && lines[i][1] == ' ';
      DashAndSpace(lines[n]);
      assert forall i :: 0 <= i < n ==> before[i] == lines[i];
      if StartsWith(lines[n], "- ") {
        assert all == earlier + {n};
      } else {
        assert all == earlier;
      }
    }
  }

  lemma DashAndSpace(line: string)
    ensures StartsWith(line, "- ") <==> |line| >= 2 && line[0] == '-' && line[1] == ' '
  {
    if |line| >= 2 {
      assert line[..2] == [line[0], line[1]];
    }
  }

  // ------------------------------------------------------------------------------- whole runs

  /** The places of the appends among the commands, in order. */
  ghost predicate AppendsAt(ops: seq<Op>, at: seq<nat>) {
    && (forall i, j :: 0 <= i < j < |at| ==> at[i] < at[j])
    && (forall i :: i in at <==> 0 <= i < |ops| && ops[i].Append?)
  }

  ghost predicate CarriesOp(line: string, op: Op)
    requires op.Append?
  {
    Carries(line, op.text, op.kind, op.who)
  }

  /** The lines are those before the run and then one for each append, in order, carrying its text. */
  ghost predicate LinesOfTheRun(lines: seq<string>, before: seq<string>, ops: seq<Op>, at: seq<nat>)
    requires AppendsAt(ops, at)
  {
    && |lines| == |before| + |at| && lines[..|before|] == before
    && forall j :: 0 <= j < |at| ==> at[j] in at && CarriesOp(lines[|before| + j], ops[at[j]])
  }

  /** A value as the format holds it: its lines joined by spaces, stripped. */
  ghost predicate IsFlattened(value: string, v: string) {
    exists lines :: Broken(value, lines) && StripsTo(Join(lines, " "), v, IsSpace)
  }

  /** The last command that sets the key. */
  ghost predicate LastSetAt(ops: seq<Op>, i: int, key: string) {
    0 <= i < |ops| && ops[i].Set? && ops[i].key == key && forall j :: i < j < |ops| && ops[j].Set? ==> ops[j].key != key
  }

  ghost predicate NeverSet(ops: seq<Op>, key: string) {
    forall i :: 0 <= i < |ops| && ops[i].Set? ==> ops[i].key != key
  }

  lemma {:induction false} TheEntriesCarryTheTexts(ops: seq<Op>) returns (at: seq<nat>)
    ensures AppendsAt(ops, at) && LinesOfTheRun(EntriesOf(ops), [], ops, at)
  {
    hide Carries, Entry;
    at := [];
    if ops != [] {
      var n := |ops| - 1;
      var before, op := ops[..n], ops[n];
      at := TheEntriesCarryTheTexts(before);
      assert forall i :: 0 <= i < n ==> before[i] == ops[i];
      if op.Append? {
        assert forall j :: 0 <= j < |at| ==> at[j] in at;
        var more := at + [n];
        assert forall i :: i in more <==> i in at || i == n;
        AnEntryCarriesItsText(Entry(op.text, op.kind, op.who), op.text, op.kind, op.who);
        at := more;
      }
    }
  }

  lemma TheFlattenedValueIs(value: string, v: string)
    ensures v == Normal(value) <==> IsFlattened(value, v)
  {
    hide Broken, SplitLines, Trim, IsSpace, Join, StripsTo;
    SplitLinesAreTheBrokenParts(value, SplitLines(value));
    TrimStrips(Flat(value), v, IsSpace);
    TrimStrips(Flat(value), Normal(value), IsSpace);
    if IsFlattened(value, v) {
      var lines :| Broken(value, lines) && StripsTo(Join(lines, " "), v, IsSpace);
      SplitLinesAreTheBrokenParts(value, lines);
    }
  }

  lemma {:induction false} WhichValueIsLast(before: Option<string>, ops: seq<Op>, key: string)
    ensures forall i :: LastSetAt(ops, i, key) ==> LastSet(before, ops, key) == Some(Normal(ops[i].value))
    ensures NeverSet(ops, key) ==> LastSet(before, ops, key) == before
  {
    hide Normal;
    if ops != [] {
      var n := |ops| - 1;
      WhichValueIsLast(before, ops[..n], key);
      forall i | LastSetAt(ops, i, key) ensures LastSet(before, ops, key) == Some(Normal(ops[i].value)) {
        if i < n {
          assert LastSetAt(ops[..n], i, key);
        }
      }
    }
  }

  lemma {:induction false} AFieldIsHeld(fields: Fields, key: string, value: string)
    requires forall i, j :: 0 <= i < j < |fields| ==> fields[i].0 != fields[j].0
    ensures FieldOf(fields, key) == Some(value) <==> (key, value) in fields
  {
    if fields != [] {
      AFieldIsHeld(fields[1..], key, value);
      assert fields == [fields[0]] + fields[1..];
    }
  }

  /** A field set in the run holds what its last setting gave it, any other what it held before, and
    * `updated` comes last with the time of the last command. */
  ghost predicate FieldsOfTheRun(meta: Fields, log: Log, ops: seq<Op>) {
    && (forall key, i :: key != "updated" && LastSetAt(ops, i, key) ==>
          forall v :: (key, v) in meta <==> IsFlattened(ops[i].value, v))
    && (forall key :: key != "updated" && NeverSet(ops, key) ==>
          forall v :: (key, v) in meta <==> (key, v) in log.fields)
    && meta != [] && meta[|meta| - 1] == ("updated", if ops == [] then log.updated else ops[|ops| - 1].now)
  }

  ghost predicate HoldsTheRun(text: string, log: Log, ops: seq<Op>) {
    exists meta, body, lines, at ::
      && SplitText(text) == Success((meta, body)) && Broken(body, lines)
      && AppendsAt(ops, at) && LinesOfTheRun(lines, log.entries, ops, at) && FieldsOfTheRun(meta, log, ops)
  }

  /** The whole promise, told of the characters: after a run of well-formed commands the file's lines
    * are those it had and then one for each append, in order, each carrying its own text. */
  lemma TheFileHoldsTheRun(text: string, log: Log, ops: seq<Op>)
    requires Represents(text, log) && forall op :: op in ops ==> GoodOp(op)
    ensures FileAfter(text, ops).Success? && HoldsTheRun(FileAfter(text, ops).value, log, ops)
  {
    AppendOnlyOverWholeRuns(text, log, ops);
    TheFileIsTheLog(text, log, ops);
    var (meta, body) := SplitText(FileAfter(text, ops).value).value;
    var at := TheEntriesCarryTheTexts(ops);
    hide Represents, WellFormed, CarriesOp, AppendsAt, SplitText, SplitLines, Broken, FileAfter, FieldsOfTheRun;
    SplitLinesAreTheBrokenParts(body, SplitLines(body));
    AfterTheEarlierLines(log.entries, EntriesOf(ops), ops, at);
    TheFieldsAreTheRuns(FileAfter(text, ops).value, text, log, ops);
    assert HoldsTheRun(FileAfter(text, ops).value, log, ops);
  }

  lemma AfterTheEarlierLines(before: seq<string>, lines: seq<string>, ops: seq<Op>, at: seq<nat>)
    requires AppendsAt(ops, at) && LinesOfTheRun(lines, [], ops, at)
    ensures LinesOfTheRun(before + lines, before, ops, at)
  {
    hide CarriesOp;
    forall j | 0 <= j < |at| ensures at[j] in at && CarriesOp((before + lines)[|before| + j], ops[at[j]]) {
      assert at[j] in at && CarriesOp(lines[0 + j], ops[at[j]]);
    }
  }

  lemma TheFieldsAreTheRuns(after: string, text: string, log: Log, ops: seq<Op>)
    requires Represents(text, log) && Represents(after, LogAfter(log, ops))
    ensures FieldsOfTheRun(SplitText(after).value.0, log, ops)
  {
    hide SplitText, GoodKey, IsEntry, IsFlattened, Logged;
    var end := LogAfter(log, ops);
    var meta := end.fields + [("updated", end.updated)];
    TheLastStamp(log, ops);
    forall key, v | key != "updated"
      ensures (key, v) in meta <==> LastSet(FieldOf(log.fields, key), ops, key) == Some(v)
    {
      TheLogHoldsTheLastValues(log, ops, key);
      AFieldIsHeld(end.fields, key, v);
    }
    forall key, i, v | key != "updated" && LastSetAt(ops, i, key)
      ensures (key, v) in meta <==> IsFlattened(ops[i].value, v)
    {
      WhichValueIsLast(FieldOf(log.fields, key), ops, key);
      TheFlattenedValueIs(ops[i].value, v);
    }
    forall key, v | key != "updated" && NeverSet(ops, key)
      ensures (key, v) in meta <==> (key, v) in log.fields
    {
      WhichValueIsLast(FieldOf(log.fields, key), ops, key);
      AFieldIsHeld(log.fields, key, v);
    }
  }

  lemma TheLastStamp(log: Log, ops: seq<Op>)
    ensures LogAfter(log, ops).updated == if ops == [] then log.updated else ops[|ops| - 1].now
  {
  }
}
