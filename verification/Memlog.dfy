/** The memory log (`_bmad/scripts/memlog.py`): its file format and its three commands. */
module Memlog {
  import opened Core
  import opened Text
  import opened Lines

  const FENCE := "---"
  const UPDATED := "updated"

  /** Frontmatter in source order, as a dict with its insertion order. */
  type Fields = seq<(string, string)>

  datatype FormatError = NoFrontmatter | FrontmatterNotTerminated

  /** `meta[key] = value`: in place when the key is there, at the end otherwise. */
  function SetField(fields: Fields, key: string, value: string): Fields {
    if fields == [] then [(key, value)]
    else if fields[0].0 == key then [(key, value)] + fields[1..]
    else [fields[0]] + SetField(fields[1..], key, value)
  }

  /** `meta.pop(key, None)`. */
  function RemoveField(fields: Fields, key: string): Fields {
    if fields == [] then []
    else if fields[0].0 == key then fields[1..]
    else [fields[0]] + RemoveField(fields[1..], key)
  }

  /** Stamps `updated` and keeps it last. */
  function Touch(fields: Fields, now: string): Fields {
    RemoveField(fields, UPDATED) + [(UPDATED, now)]
  }

  // ------------------------------------------------------------------------- split and render

  function FirstColon(line: string): (k: nat)
    ensures k <= |line| && ':' !in line[..k] && (k < |line| ==> line[k] == ':')
  {
    if line == "" || line[0] == ':' then 0 else 1 + FirstColon(line[1..])
  }

  /** One frontmatter line, folded into the fields; a line without a colon is skipped. */
  function Parsed(fields: Fields, line: string): Fields {
    var k := FirstColon(line);
    if k == |line| then fields else SetField(fields, Strip(line[..k]), Strip(line[k + 1..]))
  }

  function ParseAll(lines: seq<string>): Fields {
    if lines == [] then [] else Parsed(ParseAll(lines[..|lines| - 1]), lines[|lines| - 1])
  }

  /** Where the frontmatter ends: the index of a fence line, or past the last line without one. */
  function FenceAt(lines: seq<string>): (k: nat)
    ensures k <= |lines| && (k < |lines| ==> lines[k] == FENCE)
    ensures forall i :: 0 <= i < k ==> lines[i] != FENCE
  {
    if lines == [] || lines[0] == FENCE then 0 else 1 + FenceAt(lines[1..])
  }

  function BodyOf(lines: seq<string>): string {
    TrimLeft(Join(lines, "\n"), IsNewline)
  }

  function SplitText(text: string): Result<(Fields, string), FormatError> {
    var lines := SplitLines(text);
    if lines == [] || lines[0] != FENCE then Failure(NoFrontmatter)
    else
      var end := FenceAt(lines[1..]);
      if end == |lines| - 1 then Failure(FrontmatterNotTerminated)
      else Success((ParseAll(lines[1..][..end]), BodyOf(lines[1..][end + 1..])))
  }

  /** `split`, with the loop that fills `meta`. */
  method SplitMemlog(text: string) returns (r: Result<(Fields, string), FormatError>)
    ensures r == SplitText(text)
  {
    hide Strip, SetField, FirstColon, ParseAll, SplitLines, FenceAt, BodyOf;
    var lines := SplitLines(text);
    if lines == [] || lines[0] != FENCE {
      return Failure(NoFrontmatter);
    }
    var rest := lines[1..];
    var end := FenceAt(rest);
    if end == |rest| {
      return Failure(FrontmatterNotTerminated);
    }
    var front := rest[..end];
    ParseNone(front);
    var meta: Fields := [];
    var i := 0;
    while i < |front|
      invariant 0 <= i <= |front|
      invariant meta == ParseAll(front[..i])
    {
      ParseNext(front, i);
      var k := FirstColon(front[i]);
      if k < |front[i]| {
        meta := SetField(meta, Strip(front[i][..k]), Strip(front[i][k + 1..]));
      }
      i := i + 1;
    }
    assert front[..i] == front;
    r := Success((meta, BodyOf(rest[end + 1..])));
  }

  lemma ParseNone(lines: seq<string>)
    ensures ParseAll(lines[..0]) == []
  {
  }

  lemma ParseNext(lines: seq<string>, i: nat)
    requires i < |lines|
    ensures ParseAll(lines[..i + 1]) == Parsed(ParseAll(lines[..i]), lines[i])
  {
    hide Parsed;
    assert lines[..i + 1][..i] == lines[..i];
  }

  function FieldLine(field: (string, string)): string {
    field.0 + ": " + Flat(field.1)
  }

  function FieldLines(fields: Fields): (lines: seq<string>)
    ensures |lines| == |fields|
    ensures forall i :: 0 <= i < |fields| ==> lines[i] == FieldLine(fields[i])
  {
    seq(|fields|, i requires 0 <= i < |fields| => FieldLine(fields[i]))
  }

  function Render(fields: Fields, body: string): string {
    "---\n" + Join(FieldLines(fields), "\n") + "\n---\n\n" + TrimRight(body, IsNewline) + "\n"
  }

  // --------------------------------------------------------------- split undoes what render did

  /** A key the format can carry: stripped, and free of colons and line breaks. */
  ghost predicate GoodKey(key: string) {
    Trimmed(key, IsSpace) && ':' !in key && BreakFree(key)
  }

  ghost predicate GoodFields(fields: Fields) {
    && (forall i :: 0 <= i < |fields| ==> GoodKey(fields[i].0))
    && (forall i, j :: 0 <= i < j < |fields| ==> fields[i].0 != fields[j].0)
  }

  /** The fields as they read back: same keys, same order, values collapsed to one stripped line. */
  function ReadBack(fields: Fields): (r: Fields)
    ensures |r| == |fields|
    ensures forall i :: 0 <= i < |fields| ==> r[i] == (fields[i].0, Normal(fields[i].1))
  {
    seq(|fields|, i requires 0 <= i < |fields| => (fields[i].0, Normal(fields[i].1)))
  }

  lemma {:induction false} FirstColonIs(key: string, rest: string)
    requires ':' !in key
    ensures FirstColon(key + ":" + rest) == |key|
  {
    if key == "" {
      assert key + ":" + rest == ":" + rest;
    } else {
      assert (key + ":" + rest)[1..] == key[1..] + ":" + rest;
      FirstColonIs(key[1..], rest);
    }
  }

  lemma AKeyAndAValueParse(fields: Fields, key: string, v: string)
    requires GoodKey(key)
    ensures Parsed(fields, key + ":" + v) == SetField(fields, key, Strip(v))
    ensures key + ":" + v != FENCE
  {
    hide IsSpace, Trim, SetField, FirstColon;
    var line := key + ":" + v;
    FirstColonIs(key, v);
    assert line[..|key|] == key && line[|key| + 1..] == v;
    TrimTrims(key, IsSpace);
    ColonIsNotTheFence(key, v);
  }

  lemma ColonIsNotTheFence(key: string, v: string)
    ensures key + ":" + v != FENCE
  {
    assert (key + ":" + v)[|key|] == ':';
    assert forall c :: c in FENCE ==> c == '-';
  }

  lemma AFieldLineParses(fields: Fields, field: (string, string))
    requires GoodKey(field.0)
    ensures BreakFree(FieldLine(field)) && FieldLine(field) != FENCE
    ensures Parsed(fields, FieldLine(field)) == SetField(fields, field.0, Normal(field.1))
  {
    FlatIsBreakFree(field.1);
    BreakFreeTogether(field.0, ": ");
    BreakFreeTogether(field.0 + ": ", Flat(field.1));
    assert field.0 + ": " + Flat(field.1) == field.0 + ":" + (" " + Flat(field.1));
    AKeyAndAValueParse(fields, field.0, " " + Flat(field.1));
    StripAfterSpace(Flat(field.1));
  }

  lemma {:induction false} SetNewField(fields: Fields, key: string, value: string)
    requires forall i :: 0 <= i < |fields| ==> fields[i].0 != key
    ensures SetField(fields, key, value) == fields + [(key, value)]
  {
    if fields != [] {
      SetNewField(fields[1..], key, value);
    }
  }

  lemma {:induction false} FieldLinesParse(fields: Fields)
    requires GoodFields(fields)
    ensures ParseAll(FieldLines(fields)) == ReadBack(fields)
  {
    if fields != [] {
      var n := |fields| - 1;
      var front, last := fields[..n], fields[n];
      GoodPrefix(fields);
      FieldLinesParse(front);
      LastFieldLine(fields);
      OneMoreFieldLine(front, last);
    }
  }

  lemma OneMoreFieldLine(front: Fields, last: (string, string))
    requires GoodKey(last.0) && forall i :: 0 <= i < |front| ==> ReadBack(front)[i].0 != last.0
    requires ParseAll(FieldLines(front)) == ReadBack(front)
    ensures ParseAll(FieldLines(front) + [FieldLine(last)]) == ReadBack(front) + [(last.0, Normal(last.1))]
  {
    ParseOneMore(FieldLines(front), FieldLine(last));
    AFieldLineParses(ReadBack(front), last);
    SetNewField(ReadBack(front), last.0, Normal(last.1));
  }

  lemma ParseOneMore(lines: seq<string>, line: string)
    ensures ParseAll(lines + [line]) == Parsed(ParseAll(lines), line)
  {
    assert (lines + [line])[..|lines|] == lines;
  }

  lemma GoodPrefix(fields: Fields)
    requires GoodFields(fields) && fields != []
    ensures var n := |fields| - 1;
      && GoodFields(fields[..n]) && GoodKey(fields[n].0)
      && forall i :: 0 <= i < n ==> ReadBack(fields[..n])[i].0 != fields[n].0
  {
  }

  lemma LastFieldLine(fields: Fields)
    requires fields != []
    ensures var n := |fields| - 1;
      && FieldLines(fields) == FieldLines(fields[..n]) + [FieldLine(fields[n])]
      && ReadBack(fields) == ReadBack(fields[..n]) + [(fields[n].0, Normal(fields[n].1))]
  {
    hide FieldLine, Normal;
  }

  /** What stands between the fences; an empty frontmatter renders one empty line. */
  function Front(fields: Fields): seq<string> {
    if fields == [] then [""] else FieldLines(fields)
  }

  lemma FrontIsSafe(fields: Fields)
    requires GoodFields(fields)
    ensures AllBreakFree(Front(fields)) && forall i :: 0 <= i < |Front(fields)| ==> Front(fields)[i] != FENCE
    ensures ParseAll(Front(fields)) == ReadBack(fields)
  {
    if fields == [] {
      NoFrontIsSafe();
    } else {
      hide BreakFree, FieldLine, Parsed, ParseAll;
      FieldLinesParse(fields);
      forall i | 0 <= i < |fields| ensures BreakFree(FieldLine(fields[i])) && FieldLine(fields[i]) != FENCE {
        AFieldLineParses([], fields[i]);
      }
    }
  }

  lemma NoFrontIsSafe()
    ensures AllBreakFree([""]) && "" != FENCE && ParseAll([""]) == [] == ReadBack([])
  {
    assert [""][..0] == [];
    assert ParseAll([""]) == Parsed([], "");
  }

  /** The rendered text, line by line. */
  lemma RenderedLines(fields: Fields, body: string)
    requires GoodFields(fields)
    ensures SplitLines(Render(fields, body))
         == [FENCE] + Front(fields) + ([FENCE, ""] + SplitLines(TrimRight(body, IsNewline) + "\n"))
  {
    FrontIsSafe(fields);
    FrontJoins(fields);
    RenderRegroups(Join(FieldLines(fields), "\n"), TrimRight(body, IsNewline));
    FencedLines(Front(fields), TrimRight(body, IsNewline) + "\n");
  }

  lemma FrontJoins(fields: Fields)
    ensures Join(FieldLines(fields), "\n") + "\n" == Unlines(Front(fields))
  {
    if fields == [] {
      assert Unlines([""]) == "" + "\n" + "";
    } else {
      UnlinesJoin(Front(fields));
    }
  }

  lemma FencedLines(front: seq<string>, last: string)
    requires AllBreakFree(front)
    ensures SplitLines(FENCE + "\n" + (Unlines(front) + (FENCE + "\n" + ("" + "\n" + last))))
         == [FENCE] + front + ([FENCE, ""] + SplitLines(last))
  {
    var blank := "" + "\n" + last;
    var tail := FENCE + "\n" + blank;
    LineThen(FENCE, Unlines(front) + tail);
    SplitUnlines(front, tail);
    LineThen(FENCE, blank);
    LineThen("", last);
    FencedSequences(front, SplitLines(last));
  }

  lemma FencedSequences(front: seq<string>, last: seq<string>)
    ensures [FENCE] + (front + ([FENCE] + ([""] + last))) == [FENCE] + front + ([FENCE, ""] + last)
  {
  }

  lemma RenderRegroups(front: string, body: string)
    ensures "---\n" + front + "\n---\n\n" + body + "\n"
         == FENCE + "\n" + (front + "\n" + (FENCE + "\n" + ("" + "\n" + (body + "\n"))))
  {
  }

  lemma {:induction false} FenceAfter(front: seq<string>, rest: seq<string>)
    requires forall i :: 0 <= i < |front| ==> front[i] != FENCE
    ensures FenceAt(front + [FENCE] + rest) == |front|
  {
    var lines := front + [FENCE] + rest;
    assert lines[|front|] == FENCE;
    assert forall i :: 0 <= i < |front| ==> lines[i] == front[i];
  }

  /** The body as it reads back. */
  function BodyBack(body: string): string {
    BodyOf(SplitLines(TrimRight(body, IsNewline) + "\n"))
  }

  /** Whatever the values and the body hold: the same fields come back, in the same order, each
    * value collapsed and stripped, and no value ends the fence early. */
  lemma SplitUndoesRender(fields: Fields, body: string)
    requires GoodFields(fields)
    ensures SplitText(Render(fields, body)) == Success((ReadBack(fields), BodyBack(body)))
  {
    RenderedLines(fields, body);
    FrontIsSafe(fields);
    SplitFenced(Render(fields, body), Front(fields), SplitLines(TrimRight(body, IsNewline) + "\n"));
  }

  lemma SplitFenced(text: string, front: seq<string>, last: seq<string>)
    requires SplitLines(text) == [FENCE] + front + ([FENCE, ""] + last) && last != []
    requires forall i :: 0 <= i < |front| ==> front[i] != FENCE
    ensures SplitText(text) == Success((ParseAll(front), BodyOf(last)))
  {
    hide SplitLines, ParseAll, BodyOf, FenceAt;
    var lines := SplitLines(text);
    AfterTheFence(front, last);
    assert lines[0] == FENCE && lines[1..] == front + [FENCE] + ([""] + last);
    FenceAfter(front, [""] + last);
    LeadingBlankIsTrimmed(last);
  }

  lemma AfterTheFence(front: seq<string>, last: seq<string>)
    ensures var rest := front + [FENCE] + ([""] + last);
      && ([FENCE] + front + ([FENCE, ""] + last))[1..] == rest
      && rest[..|front|] == front && rest[|front| + 1..] == [""] + last
  {
  }

  lemma LeadingBlankIsTrimmed(lines: seq<string>)
    requires lines != []
    ensures BodyOf([""] + lines) == BodyOf(lines)
  {
    var joined := Join(lines, "\n");
    assert ([""] + lines)[1..] == lines;
    assert Join([""] + lines, "\n") == "" + "\n" + joined == "\n" + joined;
    assert ("\n" + joined)[1..] == joined;
  }

  /** The body comes back without its outer newlines exactly when newlines are its only breaks. */
  lemma TheBodyComesBackIffItBreaksByNewlines(body: string)
    ensures BodyBack(body) == Trim(body, IsNewline) <==> OnlyNewlines(body)
  {
    var b := TrimRight(body, IsNewline);
    var lines := SplitLines(b + "\n");
    if OnlyNewlines(body) {
      SplitLinesIsSplit(b);
      JoinSplit(b, '\n');
    } else {
      JoinedHasOnlyNewlines(lines);
      var c :| c in body && IsBreak(c) && c != '\n';
      OtherCharactersStay(body, c);
      var joined := Join(lines, "\n");
      assert forall d :: d in BodyOf(lines) ==> d in joined;
    }
  }

  lemma OtherCharactersStay(s: string, c: char)
    requires c in s && c != '\n'
    ensures c in Trim(s, IsNewline)
  {
    hide TrimLeft, TrimRight;
    var t := TrimRight(s, IsNewline);
    var i :| 0 <= i < |s| && s[i] == c;
    assert i < |t| && t[i] == c;
    var r := TrimLeft(t, IsNewline);
    var cut := |t| - |r|;
    assert !IsNewline(t[i]) && cut <= i;
    assert r == t[cut..] && r[i - cut] == t[i];
  }

  /** Rendering what was split from a rendering is a fixed point. */
  lemma RenderSplitRenderIsAFixedPoint(fields: Fields, body: string)
    requires GoodFields(fields)
    ensures var once := Render(ReadBack(fields), BodyBack(body));
      SplitText(once) == Success((ReadBack(fields), BodyBack(BodyBack(body))))
      && Render(ReadBack(fields), BodyBack(BodyBack(body))) == once
  {
    hide SplitText, BodyBack, ReadBack, GoodFields;
    ReadBackSettles(fields);
    SplitUndoesRender(ReadBack(fields), BodyBack(body));
    TheEndIsTrimmedOnce(body);
    RenderTrimsTheEnd(ReadBack(fields), BodyBack(BodyBack(body)), BodyBack(body));
  }

  lemma ReadBackSettles(fields: Fields)
    requires GoodFields(fields)
    ensures GoodFields(ReadBack(fields)) && ReadBack(ReadBack(fields)) == ReadBack(fields)
  {
    hide Normal;
    forall i | 0 <= i < |fields| ensures ReadBack(ReadBack(fields))[i] == ReadBack(fields)[i] {
      NormalIsNormal(fields[i].1);
    }
  }

  lemma RenderTrimsTheEnd(fields: Fields, body: string, other: string)
    requires TrimRight(body, IsNewline) == TrimRight(other, IsNewline)
    ensures Render(fields, body) == Render(fields, other)
  {
  }

  lemma TheEndIsTrimmedOnce(body: string)
    ensures TrimRight(BodyBack(BodyBack(body)), IsNewline) == TrimRight(BodyBack(body), IsNewline)
  {
    hide BodyBack;
    var b := BodyBack(body);
    BodyBackBreaksByNewlines(body);
    TheBodyComesBackIffItBreaksByNewlines(b);
    LeadingKept(body);
    TrimRightSettles(b);
  }

  lemma TrimRightSettles(s: string)
    ensures TrimRight(TrimRight(s, IsNewline), IsNewline) == TrimRight(s, IsNewline)
  {
  }

  lemma BodyBackBreaksByNewlines(body: string)
    ensures OnlyNewlines(BodyBack(body))
  {
    var lines := SplitLines(TrimRight(body, IsNewline) + "\n");
    JoinedHasOnlyNewlines(lines);
    var joined := Join(lines, "\n");
    assert forall d :: d in BodyOf(lines) ==> d in joined;
  }

  /** What was read back starts with no newline, so only its end can still be trimmed. */
  lemma LeadingKept(body: string)
    ensures var b := BodyBack(body); Trim(b, IsNewline) == TrimRight(b, IsNewline)
  {
    var b := BodyBack(body);
    var t := TrimRight(b, IsNewline);
    if t != "" {
      assert t[0] == b[0];
    }
  }
}
