/** Lines and words: `str.splitlines`, joining by newline, and whitespace collapsing. */
module Lines {
  import opened Text

  ghost predicate BreakFree(s: string) {
    forall c :: c in s ==> !IsBreak(c)
  }

  /** How many characters the break at the head of `s` takes: CRLF counts as one break. */
  function BreakWidth(s: string): (w: nat)
    requires s != ""
    ensures 1 <= w <= |s|
  {
    if s[0] == '\r' && |s| > 1 && s[1] == '\n' then 2 else 1
  }

  function FirstBreak(s: string): (k: nat)
    ensures k <= |s| && BreakFree(s[..k]) && (k < |s| ==> IsBreak(s[k]))
  {
    if s == "" || IsBreak(s[0]) then 0 else 1 + FirstBreak(s[1..])
  }

  lemma BreakFreeTogether(a: string, b: string)
    requires BreakFree(a) && BreakFree(b)
    ensures BreakFree(a + b)
  {
  }

  /** `s.splitlines()`: a final break ends the last line and starts no other. */
  function SplitLines(s: string): (lines: seq<string>)
    ensures forall l :: l in lines ==> BreakFree(l)
    ensures s != "" <==> lines != []
    decreases |s|
  {
    if s == "" then []
    else
      var k := FirstBreak(s);
      if k == |s| then [s] else [s[..k]] + SplitLines(s[k + BreakWidth(s[k..])..])
  }

  lemma {:induction false} FirstBreakIs(a: string, b: string)
    requires BreakFree(a) && b != "" && IsBreak(b[0])
    ensures FirstBreak(a + b) == |a|
  {
    if a == "" {
      assert a + b == b;
    } else {
      assert a[0] in a;
      assert (a + b)[1..] == a[1..] + b;
      FirstBreakIs(a[1..], b);
    }
  }

  lemma {:induction false} NoBreakNoFirst(a: string)
    requires BreakFree(a)
    ensures FirstBreak(a) == |a|
  {
    if a != "" {
      assert a[0] in a;
      NoBreakNoFirst(a[1..]);
    }
  }

  lemma OneLine(a: string)
    requires BreakFree(a) && a != ""
    ensures SplitLines(a) == [a]
  {
    NoBreakNoFirst(a);
  }

  /** A break-free line ended by a newline is the first line of what follows. */
  lemma LineThen(a: string, b: string)
    requires BreakFree(a)
    ensures SplitLines(a + "\n" + b) == [a] + SplitLines(b)
  {
    var s := a + "\n" + b;
    assert s == a + ("\n" + b);
    FirstBreakIs(a, "\n" + b);
    assert s[..|a|] == a && s[|a|..] == "\n" + b && s[|a| + 1..] == b;
  }

  lemma Uncons<T>(xs: seq<T>, ys: seq<T>)
    requires xs != []
    ensures [xs[0]] + (xs[1..] + ys) == xs + ys
  {
  }

  /** Every line ended by a newline. */
  function Unlines(lines: seq<string>): string {
    if lines == [] then "" else lines[0] + "\n" + Unlines(lines[1..])
  }

  ghost predicate AllBreakFree(lines: seq<string>) {
    forall i :: 0 <= i < |lines| ==> BreakFree(lines[i])
  }

  lemma {:induction false} SplitUnlines(lines: seq<string>, rest: string)
    requires AllBreakFree(lines)
    ensures SplitLines(Unlines(lines) + rest) == lines + SplitLines(rest)
  {
    if lines == [] {
      assert Unlines(lines) + rest == rest;
    } else {
      var first, others := lines[0], lines[1..];
      assert BreakFree(first) && AllBreakFree(others);
      hide AllBreakFree, BreakFree, SplitLines;
      SplitUnlines(others, rest);
      assert Unlines(lines) == first + "\n" + Unlines(others);
      LineThen(first, Unlines(others) + rest);
      Associates(first + "\n", Unlines(others), rest);
      Uncons(lines, SplitLines(rest));
    }
  }

  lemma {:induction false} UnlinesJoin(lines: seq<string>)
    requires lines != []
    ensures Join(lines, "\n") + "\n" == Unlines(lines)
  {
    if |lines| == 1 {
      assert lines[1..] == [];
      assert lines[0] + "\n" + "" == lines[0] + "\n";
    } else {
      UnlinesJoin(lines[1..]);
      assert lines[0] + "\n" + Join(lines[1..], "\n") + "\n" == lines[0] + "\n" + (Join(lines[1..], "\n") + "\n");
    }
  }

  /** Lines joined by newlines, then split, are the lines again unless the last is empty. */
  lemma {:induction false} SplitJoined(lines: seq<string>)
    requires lines != [] && AllBreakFree(lines) && lines[|lines| - 1] != ""
    ensures SplitLines(Join(lines, "\n")) == lines
  {
    if |lines| == 1 {
      OneLine(lines[0]);
    } else {
      SplitJoined(lines[1..]);
      LineThen(lines[0], Join(lines[1..], "\n"));
    }
  }

  // ----------------------------------------------------------------- only newlines, or not only

  ghost predicate OnlyNewlines(s: string) {
    forall c :: c in s && IsBreak(c) ==> c == '\n'
  }

  /** On text whose only breaks are newlines, `splitlines` is `split("\n")` once the last line is ended. */
  lemma {:induction false} SplitLinesIsSplit(s: string)
    requires OnlyNewlines(s)
    ensures SplitLines(s + "\n") == Split(s, '\n')
    decreases |s|
  {
    var k := FirstBreak(s);
    var head := s[..k];
    NewlineFree(head);
    SplitWithout(head, '\n');
    if k == |s| {
      assert head == s;
      LineThen(s, "");
      assert s + "\n" + "" == s + "\n";
    } else {
      var tail := s[k + 1..];
      assert s[k] in s && s[k] == '\n';
      assert head + ['\n'] + tail == s;
      SplitLinesIsSplit(tail);
      LineThen(head, tail + "\n");
      assert head + "\n" + (tail + "\n") == s + "\n";
      SplitAtSeparator(head, '\n', tail);
    }
  }

  lemma NewlineFree(s: string)
    requires BreakFree(s)
    ensures '\n' !in s
  {
  }

  lemma {:induction false} JoinedHasOnlyNewlines(lines: seq<string>)
    requires AllBreakFree(lines)
    ensures OnlyNewlines(Join(lines, "\n"))
  {
    if |lines| > 1 {
      JoinedHasOnlyNewlines(lines[1..]);
    }
  }

  // ---------------------------------------------------------------------- flattening and words

  /** `' '.join(v.splitlines())`. */
  function Flat(v: string): string {
    Join(SplitLines(v), " ")
  }

  lemma {:induction false} JoinedBySpacesIsBreakFree(parts: seq<string>)
    requires AllBreakFree(parts)
    ensures BreakFree(Join(parts, " "))
  {
    if |parts| > 1 {
      JoinedBySpacesIsBreakFree(parts[1..]);
    }
  }

  lemma FlatIsBreakFree(v: string)
    ensures BreakFree(Flat(v))
    ensures BreakFree(v) ==> Flat(v) == v
  {
    JoinedBySpacesIsBreakFree(SplitLines(v));
    if BreakFree(v) && v != "" {
      OneLine(v);
    }
  }

  /** A field value as it reads back: its lines joined by spaces, stripped. */
  function Normal(v: string): string {
    Strip(Flat(v))
  }

  lemma StripKeepsBreakFree(s: string)
    requires BreakFree(s)
    ensures BreakFree(Strip(s))
  {
    TrimTrims(s, IsSpace);
    var i, j :| 0 <= i <= j <= |s| && Strip(s) == s[i..j];
  }

  lemma NormalIsNormal(v: string)
    ensures BreakFree(Normal(v)) && Trimmed(Normal(v), IsSpace)
    ensures BreakFree(v) && Trimmed(v, IsSpace) ==> Normal(v) == v
    ensures Normal(Normal(v)) == Normal(v)
  {
    FlatIsBreakFree(v);
    StripKeepsBreakFree(Flat(v));
    TrimTrims(Flat(v), IsSpace);
    FlatIsBreakFree(Normal(v));
    TrimTrims(Normal(v), IsSpace);
  }

  lemma StripAfterSpace(s: string)
    ensures Strip(" " + s) == Strip(s)
  {
    TrimRightAppend(" ", s, IsSpace);
    var t := TrimRight(s, IsSpace);
    if t != "" {
      assert (" " + t)[1..] == t;
    } else {
      assert " "[..0] == "";
      assert TrimRight(" ", IsSpace) == "";
    }
  }

  /** `s.split()`: the runs of non-space characters. */
  function Words(s: string): seq<string>
    decreases |s|
  {
    var t := TrimLeft(s, IsSpace);
    if t == "" then [] else [t[..FirstSpace(t)]] + Words(t[FirstSpace(t)..])
  }

  lemma AllBreakFreeCons(line: string, lines: seq<string>)
    requires BreakFree(line) && AllBreakFree(lines)
    ensures AllBreakFree([line] + lines)
  {
  }

  lemma {:induction false} WordsAreBreakFree(s: string)
    ensures AllBreakFree(Words(s))
    decreases |s|
  {
    var t := TrimLeft(s, IsSpace);
    if t != "" {
      var word, rest := t[..FirstSpace(t)], t[FirstSpace(t)..];
      WordsAreBreakFree(rest);
      AllBreakFreeCons(word, Words(rest));
    }
  }

  function FirstSpace(s: string): (k: nat)
    ensures k <= |s| && (forall c :: c in s[..k] ==> !IsSpace(c)) && (k < |s| ==> IsSpace(s[k]))
    ensures BreakFree(s[..k])
    ensures s != "" && !IsSpace(s[0]) ==> 0 < k
  {
    if s == "" || IsSpace(s[0]) then 0 else 1 + FirstSpace(s[1..])
  }

  /** `' '.join(text.split())`. */
  function Collapse(text: string): (r: string)
    ensures BreakFree(r)
  {
    WordsAreBreakFree(text);
    JoinedBySpacesIsBreakFree(Words(text));
    Join(Words(text), " ")
  }

  /** Parts, each with what stands after it. */
  function Laid(parts: seq<string>, gaps: seq<string>): string
    requires |gaps| == |parts|
  {
    if parts == [] then "" else parts[0] + (gaps[0] + Laid(parts[1..], gaps[1..]))
  }

  lemma LaidCons(part: string, parts: seq<string>, gap: string, gaps: seq<string>)
    requires |gaps| == |parts|
    ensures Laid([part] + parts, [gap] + gaps) == part + (gap + Laid(parts, gaps))
  {
    assert ([part] + parts)[1..] == parts && ([gap] + gaps)[1..] == gaps;
  }

  // ------------------------------------------------------------------- words, by what is between

  ghost predicate IsWord(word: string) {
    word != "" && forall c :: c in word ==> !IsSpace(c)
  }

  ghost predicate SpacedBy(lead: string, words: seq<string>, gaps: seq<string>) {
    && |gaps| == |words|
    && AllOut(lead, IsSpace)
    && (forall i :: 0 <= i < |words| ==> IsWord(words[i]) && AllOut(gaps[i], IsSpace))
    && (forall i :: 0 <= i < |words| - 1 ==> gaps[i] != "")
  }

  /** The text is these words with whitespace between them, and perhaps around them. */
  ghost predicate Spaced(text: string, words: seq<string>) {
    exists lead, gaps :: SpacedBy(lead, words, gaps) && text == lead + Laid(words, gaps)
  }

  /** That is what a text's words are, and no other words fit it. */
  lemma WordsAreTheSpacedParts(text: string, words: seq<string>)
    ensures words == Words(text) <==> Spaced(text, words)
  {
    var lead, gaps := WordsAreSpaced(text);
    if Spaced(text, words) {
      var l, g :| SpacedBy(l, words, g) && text == l + Laid(words, g);
      SpacedPartsAreTheWords(l, words, g);
    }
  }

  lemma TailSpaced(lead: string, words: seq<string>, gaps: seq<string>)
    requires SpacedBy(lead, words, gaps) && words != []
    ensures SpacedBy(gaps[0], words[1..], gaps[1..])
  {
    assert forall i :: 0 <= i < |words| - 1 ==> words[1..][i] == words[i + 1] && gaps[1..][i] == gaps[i + 1];
  }

  lemma {:induction false} SpacedPartsAreTheWords(lead: string, words: seq<string>, gaps: seq<string>)
    requires |gaps| == |words| && SpacedBy(lead, words, gaps)
    ensures Words(lead + Laid(words, gaps)) == words
    decreases |words|
  {
    hide IsSpace, SpacedBy, Laid, TrimLeft, FirstSpace, IsWord, AllOut;
    if words == [] {
      NoWordsAreSpaced(lead, gaps);
    } else {
      TailSpaced(lead, words, gaps);
      SpacedPartsAreTheWords(gaps[0], words[1..], gaps[1..]);
      TheFirstSpacedWord(lead, words, gaps);
      assert [words[0]] + words[1..] == words;
    }
  }

  lemma NoWordsAreSpaced(lead: string, gaps: seq<string>)
    requires SpacedBy(lead, [], gaps)
    ensures Words(lead + Laid([], gaps)) == []
  {
    TrimmedPast(lead, "");
    assert Laid([], gaps) == "";
  }

  lemma TheFirstSpacedWord(lead: string, words: seq<string>, gaps: seq<string>)
    requires |gaps| == |words| && SpacedBy(lead, words, gaps) && words != []
    ensures Words(lead + Laid(words, gaps)) == [words[0]] + Words(gaps[0] + Laid(words[1..], gaps[1..]))
  {
    hide IsSpace, SpacedBy, TrimLeft, FirstSpace, AllOut, IsWord, Laid;
    var word, after := words[0], gaps[0] + Laid(words[1..], gaps[1..]);
    TheWordStandsFirst(lead, words, gaps);
    TrimmedPast(lead, word + after);
    FirstSpaceIs(word, after);
    assert (word + after)[|word|..] == after && (word + after)[..|word|] == word;
  }

  lemma TheWordStandsFirst(lead: string, words: seq<string>, gaps: seq<string>)
    requires SpacedBy(lead, words, gaps) && words != []
    ensures var word, after := words[0], gaps[0] + Laid(words[1..], gaps[1..]);
      && Laid(words, gaps) == word + after && AllOut(lead, IsSpace)
      && word != "" && !IsSpace(word[0]) && (forall c :: c in word ==> !IsSpace(c))
      && (after == "" || IsSpace(after[0]))
  {
    hide IsSpace;
    assert words[0][0] in words[0];
    if |words| == 1 {
      assert gaps[0] + "" == gaps[0];
    }
  }

  lemma {:induction false} TrimmedPast(lead: string, rest: string)
    requires AllOut(lead, IsSpace) && (rest == "" || !IsSpace(rest[0]))
    ensures TrimLeft(lead + rest, IsSpace) == rest
  {
    if lead == "" {
      assert lead + rest == rest;
    } else {
      assert (lead + rest)[0] == lead[0] && (lead + rest)[1..] == lead[1..] + rest;
      TrimmedPast(lead[1..], rest);
    }
  }

  lemma {:induction false} FirstSpaceIs(word: string, rest: string)
    requires (forall c :: c in word ==> !IsSpace(c)) && (rest == "" || IsSpace(rest[0]))
    ensures FirstSpace(word + rest) == |word|
  {
    if word == "" {
      assert word + rest == rest;
    } else {
      assert word[0] in word && (word + rest)[0] == word[0] && (word + rest)[1..] == word[1..] + rest;
      FirstSpaceIs(word[1..], rest);
    }
  }

  lemma {:induction false} WordsAreSpaced(text: string) returns (lead: string, gaps: seq<string>)
    ensures |gaps| == |Words(text)| && SpacedBy(lead, Words(text), gaps) && text == lead + Laid(Words(text), gaps)
    decreases |text|
  {
    hide IsSpace, SpacedBy, Laid, IsWord, Words, AllOut, TrimLeft, FirstSpace;
    var t := TrimLeft(text, IsSpace);
    lead, gaps := text[..|text| - |t|], [];
    TheFirstWord(text);
    if t == "" {
      NoWords(lead);
    } else {
      var word, rest := t[..FirstSpace(t)], t[FirstSpace(t)..];
      var inner, others := WordsAreSpaced(rest);
      gaps := [inner] + others;
      OneMoreWord(lead, word, rest, Words(rest), inner, others);
    }
  }

  lemma TheFirstWord(text: string)
    ensures var t := TrimLeft(text, IsSpace);
      var lead, word, rest := text[..|text| - |t|], t[..FirstSpace(t)], t[FirstSpace(t)..];
      && text == lead + t && AllOut(lead, IsSpace)
      && (t == "" ==> Words(text) == [])
      && (t != "" ==>
            Words(text) == [word] + Words(rest) && IsWord(word) && |rest| < |text| && t == word + rest
            && (rest == "" || IsSpace(rest[0])))
  {
    hide IsSpace, TrimLeft, FirstSpace, BreakFree;
    var t := TrimLeft(text, IsSpace);
    if t != "" {
      AWordIsCut(t);
    }
  }

  lemma AWordIsCut(t: string)
    requires t != "" && !IsSpace(t[0])
    ensures var k := FirstSpace(t);
      k > 0 && IsWord(t[..k]) && t == t[..k] + t[k..] && (t[k..] == "" || IsSpace(t[k..][0]))
  {
    hide IsSpace, FirstSpace, BreakFree;
  }

  lemma NoWords(lead: string)
    requires AllOut(lead, IsSpace)
    ensures SpacedBy(lead, [], []) && lead + Laid([], []) == lead
  {
  }

  lemma OneMoreWord(lead: string, word: string, rest: string, words: seq<string>, inner: string, gaps: seq<string>)
    requires AllOut(lead, IsSpace) && IsWord(word) && (rest == "" || IsSpace(rest[0]))
    requires SpacedBy(inner, words, gaps) && rest == inner + Laid(words, gaps)
    ensures SpacedBy(lead, [word] + words, [inner] + gaps)
    ensures Laid([word] + words, [inner] + gaps) == word + rest
  {
    hide IsSpace;
    LaidCons(word, words, inner, gaps);
    ANonEmptyGap(rest, inner, words, gaps);
    ConsSpaced(lead, word, words, inner, gaps);
  }

  lemma ANonEmptyGap(rest: string, inner: string, words: seq<string>, gaps: seq<string>)
    requires SpacedBy(inner, words, gaps) && rest == inner + Laid(words, gaps)
    requires rest == "" || IsSpace(rest[0])
    ensures words != [] ==> inner != ""
  {
    hide IsSpace;
    if words != [] {
      assert words[0][0] in words[0] && Laid(words, gaps)[0] == words[0][0];
    }
  }

  lemma ConsSpaced(lead: string, word: string, words: seq<string>, inner: string, gaps: seq<string>)
    requires SpacedBy(inner, words, gaps) && IsWord(word) && AllOut(lead, IsSpace)
    requires words != [] ==> inner != ""
    ensures SpacedBy(lead, [word] + words, [inner] + gaps)
  {
  }

  /** Words joined by single spaces are the words again. */
  lemma {:induction false} JoinedWordsAreSpaced(words: seq<string>)
    requires forall i :: 0 <= i < |words| ==> IsWord(words[i])
    ensures Spaced(Join(words, " "), words)
  {
    var gaps := seq(|words|, i requires 0 <= i < |words| => if i < |words| - 1 then " " else "");
    JoinIsLaid(words, gaps);
    assert SpacedBy("", words, gaps);
    assert "" + Laid(words, gaps) == Laid(words, gaps);
  }

  lemma {:induction false} JoinIsLaid(words: seq<string>, gaps: seq<string>)
    requires |gaps| == |words|
    requires forall i :: 0 <= i < |words| ==> gaps[i] == if i < |words| - 1 then " " else ""
    ensures Join(words, " ") == Laid(words, gaps)
  {
    if |words| == 1 {
      assert words[0] + ("" + "") == words[0];
    } else if |words| > 1 {
      JoinIsLaid(words[1..], gaps[1..]);
      Associates(words[0], " ", Laid(words[1..], gaps[1..]));
    }
  }

  // -------------------------------------------------------------------- lines, by what ends them

  /** A line break: one character, or a carriage return with its newline. */
  ghost predicate EndsALine(end: string) {
    end == "\r\n" || (|end| == 1 && IsBreak(end[0]))
  }

  ghost predicate BrokenBy(lines: seq<string>, ends: seq<string>) {
    && |ends| == |lines|
    && AllBreakFree(lines)
    && (forall i :: 0 <= i < |lines| - 1 ==> EndsALine(ends[i]))
    && (lines != [] ==> EndsALine(ends[|lines| - 1]) || (ends[|lines| - 1] == "" && lines[|lines| - 1] != ""))
    && (forall i :: 0 <= i < |lines| && ends[i] == "\r" ==> !StartsWith(Laid(lines[i + 1..], ends[i + 1..]), "\n"))
  }

  /** The text is these lines, each ended by a break, the last perhaps only by the end of the text. */
  ghost predicate Broken(text: string, lines: seq<string>) {
    exists ends :: BrokenBy(lines, ends) && text == Laid(lines, ends)
  }

  /** That is what a text's lines are, and no other lines fit it. */
  lemma SplitLinesAreTheBrokenParts(text: string, lines: seq<string>)
    ensures lines == SplitLines(text) <==> Broken(text, lines)
  {
    var ends := LinesAreBroken(text);
    if Broken(text, lines) {
      var e :| BrokenBy(lines, e) && text == Laid(lines, e);
      BrokenPartsAreTheLines(lines, e);
    }
  }

  lemma TailBroken(lines: seq<string>, ends: seq<string>)
    requires BrokenBy(lines, ends) && lines != []
    ensures BrokenBy(lines[1..], ends[1..])
  {
    hide Laid, StartsWith, BreakFree, EndsALine;
    var ls, es := lines[1..], ends[1..];
    assert forall i :: 0 <= i < |ls| ==> ls[i] == lines[i + 1] && es[i] == ends[i + 1];
    forall i | 0 <= i < |ls| && es[i] == "\r" ensures !StartsWith(Laid(ls[i + 1..], es[i + 1..]), "\n") {
      assert ls[i + 1..] == lines[i + 2..] && es[i + 1..] == ends[i + 2..];
      assert ends[i + 1] == "\r";
    }
  }

  lemma {:induction false} BrokenPartsAreTheLines(lines: seq<string>, ends: seq<string>)
    requires |ends| == |lines| && BrokenBy(lines, ends)
    ensures SplitLines(Laid(lines, ends)) == lines
    decreases |lines|
  {
    hide BrokenBy, SplitLines;
    if lines == [] {
      NothingHasNoLines();
    } else {
      TailBroken(lines, ends);
      BrokenPartsAreTheLines(lines[1..], ends[1..]);
      TheHeadIsBroken(lines, ends);
      TheFirstLineIs(lines[0], ends[0], Laid(lines[1..], ends[1..]), |lines| == 1);
      assert [lines[0]] + lines[1..] == lines;
    }
  }

  lemma NothingHasNoLines()
    ensures SplitLines("") == []
  {
  }

  lemma TheHeadIsBroken(lines: seq<string>, ends: seq<string>)
    requires |ends| == |lines| && BrokenBy(lines, ends) && lines != []
    ensures BreakFree(lines[0]) && (EndsALine(ends[0]) || (|lines| == 1 && ends[0] == "" && lines[0] != ""))
    ensures ends[0] == "\r" ==> !StartsWith(Laid(lines[1..], ends[1..]), "\n")
  {
    hide Laid, StartsWith, BreakFree, EndsALine;
    assert ends[0] == "\r" ==> !StartsWith(Laid(lines[0 + 1..], ends[0 + 1..]), "\n");
  }

  lemma TheFirstLineIs(line: string, end: string, rest: string, only: bool)
    requires BreakFree(line) && (EndsALine(end) || (only && end == "" && line != ""))
    requires only ==> rest == ""
    requires end == "\r" ==> !StartsWith(rest, "\n")
    ensures SplitLines(line + (end + rest)) == [line] + SplitLines(rest)
  {
    hide IsBreak, BreakFree, BreakWidth, FirstBreak;
    if end == "" {
      assert line + (end + rest) == line;
      OneLine(line);
    } else {
      TheBreakIsOf(end, rest);
      AnEndedLine(line, end, rest);
    }
  }

  lemma TheBreakIsOf(end: string, rest: string)
    requires EndsALine(end) && (end == "\r" ==> !StartsWith(rest, "\n"))
    ensures IsBreak((end + rest)[0]) && BreakWidth(end + rest) == |end|
  {
    hide IsBreak;
    CarriageReturnBreaks();
    if end == "\r" && rest != "" {
      assert rest[..1] == [rest[0]];
    }
  }

  lemma AnEndedLine(line: string, end: string, rest: string)
    requires BreakFree(line) && end != "" && IsBreak((end + rest)[0]) && BreakWidth(end + rest) == |end|
    ensures SplitLines(line + (end + rest)) == [line] + SplitLines(rest)
  {
    hide IsBreak, BreakFree, BreakWidth, FirstBreak;
    var after := end + rest;
    var s := line + after;
    FirstBreakIs(line, after);
    assert s[..|line|] == line && s[|line|..] == after;
    assert s[|line| + |end|..] == rest;
  }

  lemma CarriageReturnBreaks()
    ensures IsBreak('\r')
  {
  }

  lemma {:induction false} LinesAreBroken(text: string) returns (ends: seq<string>)
    ensures |ends| == |SplitLines(text)| && BrokenBy(SplitLines(text), ends) && text == Laid(SplitLines(text), ends)
    decreases |text|
  {
    hide IsBreak, BrokenBy, SplitLines, Laid, BreakFree, BreakWidth, FirstBreak, EndsALine, StartsWith;
    ends := [];
    NoLines();
    if text != "" {
      var k := FirstBreak(text);
      if k == |text| {
        ends := [""];
        ALastLine(text);
      } else {
        var after := text[k..];
        var line, end, rest := text[..k], after[..BreakWidth(after)], after[BreakWidth(after)..];
        TheFirstLineEnds(text, line, end, rest);
        TheBreakAtTheHead(after);
        var others := LinesAreBroken(rest);
        ends := [end] + others;
        LaidCons(line, SplitLines(rest), end, others);
        ConsBroken(line, SplitLines(rest), end, others);
      }
    }
  }

  lemma TheFirstLineEnds(text: string, line: string, end: string, rest: string)
    requires text != "" && FirstBreak(text) < |text|
    requires var k := FirstBreak(text); var after := text[k..];
      line == text[..k] && end == after[..BreakWidth(after)] && rest == after[BreakWidth(after)..]
    ensures BreakFree(line) && text == line + (end + rest) && |rest| < |text|
    ensures SplitLines(text) == [line] + SplitLines(rest)
  {
    hide IsBreak, BreakFree, BreakWidth, FirstBreak;
    CutTwice(text, FirstBreak(text), BreakWidth(text[FirstBreak(text)..]));
  }

  lemma CutTwice(text: string, k: nat, w: nat)
    requires k + w <= |text|
    ensures text == text[..k] + (text[k..][..w] + text[k..][w..]) && text[k + w..] == text[k..][w..]
  {
  }

  lemma NoLines()
    ensures BrokenBy([], []) && SplitLines("") == [] && Laid([], []) == ""
  {
  }

  lemma ALastLine(line: string)
    requires FirstBreak(line) == |line| && line != ""
    ensures SplitLines(line) == [line] && BrokenBy([line], [""]) && Laid([line], [""]) == line
  {
    assert line[..|line|] == line;
    assert Laid([line], [""]) == line + ("" + "");
  }

  lemma TheBreakAtTheHead(after: string)
    requires after != "" && IsBreak(after[0])
    ensures var w := BreakWidth(after);
      EndsALine(after[..w]) && (after[..w] == "\r" ==> !StartsWith(after[w..], "\n"))
  {
    hide IsBreak;
    var w := BreakWidth(after);
    if after[..w] == "\r" && |after| > 1 {
      assert after[w..][..1] == [after[1]];
    }
  }

  lemma ConsBroken(line: string, lines: seq<string>, end: string, ends: seq<string>)
    requires BrokenBy(lines, ends) && BreakFree(line) && EndsALine(end)
    requires end == "\r" ==> !StartsWith(Laid(lines, ends), "\n")
    ensures BrokenBy([line] + lines, [end] + ends)
  {
    hide Laid, StartsWith, BreakFree, EndsALine, AllBreakFree;
    var ls, es := [line] + lines, [end] + ends;
    AllBreakFreeCons(line, lines);
    forall i | 0 <= i < |ls| && es[i] == "\r" ensures !StartsWith(Laid(ls[i + 1..], es[i + 1..]), "\n") {
      LaidBeyond(line, lines, end, ends, i);
      if i > 0 {
        assert ends[i - 1] == "\r";
      }
    }
  }

  lemma LaidBeyond(line: string, lines: seq<string>, end: string, ends: seq<string>, i: nat)
    requires |ends| == |lines| && i <= |lines|
    ensures Laid(([line] + lines)[i + 1..], ([end] + ends)[i + 1..])
         == if i == 0 then Laid(lines, ends) else Laid(lines[i - 1 + 1..], ends[i - 1 + 1..])
  {
    hide Laid;
    assert ([line] + lines)[i + 1..] == lines[i..] && ([end] + ends)[i + 1..] == ends[i..];
    assert lines[0..] == lines && ends[0..] == ends;
  }
}
