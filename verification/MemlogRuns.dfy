/** The three memlog commands, and what any sequence of them leaves in the file. */
module MemlogRuns {
  import opened Core
  import opened Text
  import opened Lines
  import opened Memlog

  /** The inline tag's content: the kind, and who it came from. */
  function Label(kind: string, who: string): string {
    if who == "" then kind else Strip(kind + " by " + who)
  }

  function Entry(text: string, kind: string, who: string): string {
    var origin := Label(kind, who);
    "- " + (if origin == "" then "" else "(" + origin + ") ") + Collapse(text)
  }

  function Appended(body: string, entry: string): string {
    if Strip(body) != "" then TrimRight(body, IsNewline) + "\n" + entry else entry
  }

  function EntryCount(body: string): nat {
    CountEntries(SplitLines(body))
  }

  function CountEntries(lines: seq<string>): nat {
    if lines == [] then 0
    else CountEntries(lines[..|lines| - 1]) + if StartsWith(lines[|lines| - 1], "- ") then 1 else 0
  }

  datatype Op =
    | Append(text: string, kind: string, who: string, now: string)
    | Set(key: string, value: string, now: string)

  /** The body a command leaves, which is the one whose entries it acknowledges. */
  function BodyAfter(body: string, op: Op): string {
    match op
    case Append(text, kind, who, _) => Appended(body, Entry(text, kind, who))
    case Set(_, _, _) => body
  }

  /** The text a command writes over the text it reads. */
  function Rewritten(text: string, op: Op): Result<string, FormatError> {
    match SplitText(text)
    case Failure(e) => Failure(e)
    case Success((meta, body)) =>
      match op
      case Append(t, kind, who, now) => Success(Render(Touch(meta, now), Appended(body, Entry(t, kind, who))))
      case Set(key, value, now) => Success(Render(Touch(SetField(meta, key, value), now), body))
  }

  function FirstEquals(pair: string): (k: nat)
    ensures k <= |pair| && '=' !in pair[..k] && (k < |pair| ==> pair[k] == '=')
  {
    if pair == "" || pair[0] == '=' then 0 else 1 + FirstEquals(pair[1..])
  }

  /** The `--field key=value` arguments, or nothing when one of them has no `=`. */
  function InitFields(pairs: seq<string>): Option<Fields> {
    if pairs == [] then Some([]) else FieldAdded(InitFields(pairs[..|pairs| - 1]), pairs[|pairs| - 1])
  }

  function FieldAdded(before: Option<Fields>, pair: string): Option<Fields> {
    var k := FirstEquals(pair);
    if before.None? || k == |pair| then None
    else Some(SetField(before.value, Strip(pair[..k]), Strip(pair[k + 1..])))
  }

  datatype Exit = Done(entries: nat) | AlreadyExists | BadField | Missing | Unreadable(error: FormatError)

  /** The file a workspace's memlog lives in. */
  class MemlogFile {
    var file: Option<string>

    constructor ()
      ensures file == None
    {
      file := None;
    }

    /** Creates the memlog, and only that: an existing file or a bad field is refused with no write. */
    method Init(pairs: seq<string>, now: string) returns (exit: Exit)
      modifies this
      ensures old(file).Some? ==> exit == AlreadyExists
      ensures old(file).None? && InitFields(pairs).None? ==> exit == BadField
      ensures exit != Done(0) ==> file == old(file)
      ensures old(file).None? && InitFields(pairs).Some? ==>
        exit == Done(0) && file == Some(Render(Touch(InitFields(pairs).value, now), ""))
    {
      hide SetField, Strip, Render, Touch, FirstEquals;
      if file != None {
        return AlreadyExists;
      }
      var meta: Fields := [];
      var i := 0;
      while i < |pairs|
        invariant 0 <= i <= |pairs|
        invariant InitFields(pairs[..i]) == Some(meta)
        invariant file == old(file)
      {
        InitFieldsStep(pairs, i);
        var k := FirstEquals(pairs[i]);
        if k == |pairs[i]| {
          ABadFieldIsFinal(pairs, i + 1);
          return BadField;
        }
        meta := SetField(meta, Strip(pairs[i][..k]), Strip(pairs[i][k + 1..]));
        i := i + 1;
      }
      assert pairs[..i] == pairs;
      file := Some(Render(Touch(meta, now), ""));
      exit := Done(0);
    }

    /** `append` or `set`: one read, one write of the whole file, nothing on a refusal. */
    method Apply(op: Op) returns (exit: Exit)
      modifies this
      ensures old(file).None? ==> exit == Missing && file == None
      ensures old(file).Some? ==>
        var written := Rewritten(old(file).value, op);
        if written.Failure? then exit == Unreadable(written.error) && file == old(file)
        else file == Some(written.value) && exit == Done(EntryCount(BodyAfter(SplitText(old(file).value).value.1, op)))
    {
      if file == None {
        return Missing;
      }
      var parsed := SplitMemlog(file.value);
      if parsed.Failure? {
        return Unreadable(parsed.error);
      }
      var meta, body := parsed.value.0, parsed.value.1;
      match op {
        case Append(text, kind, who, now) =>
          body := Appended(body, Entry(text, kind, who));
          file := Some(Render(Touch(meta, now), body));
        case Set(key, value, now) =>
          meta := SetField(meta, key, value);
          file := Some(Render(Touch(meta, now), body));
      }
      exit := Done(EntryCount(body));
    }
  }

  lemma InitFieldsStep(pairs: seq<string>, i: nat)
    requires i < |pairs|
    ensures InitFields(pairs[..i + 1]) == FieldAdded(InitFields(pairs[..i]), pairs[i])
  {
    assert pairs[..i + 1][..i] == pairs[..i];
  }

  lemma {:induction false} ABadFieldIsFinal(pairs: seq<string>, i: nat)
    requires i <= |pairs| && InitFields(pairs[..i]).None?
    ensures InitFields(pairs).None?
    decreases |pairs| - i
  {
    if i == |pairs| {
      assert pairs[..i] == pairs;
    } else {
      InitFieldsStep(pairs, i);
      ABadFieldIsFinal(pairs, i + 1);
    }
  }

  // ------------------------------------------------------------------------- the abstract log

  datatype Log = Log(fields: Fields, entries: seq<string>, updated: string)

  ghost predicate IsNormal(v: string) {
    BreakFree(v) && Trimmed(v, IsSpace)
  }

  ghost predicate IsEntry(line: string) {
    BreakFree(line) && |line| >= 2 && line[0] == '-' && line[1] == ' '
  }

  ghost predicate AllEntries(entries: seq<string>) {
    forall i :: 0 <= i < |entries| ==> IsEntry(entries[i])
  }

  ghost predicate WellFormed(log: Log) {
    && GoodFields(log.fields)
    && (forall i :: 0 <= i < |log.fields| ==> log.fields[i].0 != UPDATED && IsNormal(log.fields[i].1))
    && AllEntries(log.entries)
    && IsNormal(log.updated)
  }

  /** The file parses to the log: its fields, then `updated`, and exactly its entries as the body's lines. */
  ghost predicate Represents(text: string, log: Log) {
    && WellFormed(log)
    && SplitText(text) == Success((log.fields + [(UPDATED, log.updated)], Join(log.entries, "\n")))
  }

  ghost predicate GoodOp(op: Op) {
    match op
    case Append(_, kind, who, now) => BreakFree(Label(kind, who)) && IsNormal(now)
    case Set(key, _, now) => GoodKey(key) && IsNormal(now)
  }

  /** What a command does to the log: it appends its entry at the end, or sets its one field. */
  function Logged(log: Log, op: Op): Log {
    match op
    case Append(text, kind, who, now) => log.(entries := log.entries + [Entry(text, kind, who)], updated := now)
    case Set(key, value, now) =>
      if key == UPDATED then log.(updated := now)
      else log.(fields := SetField(log.fields, key, Normal(value)), updated := now)
  }

  lemma AnEntryIsAnEntry(text: string, kind: string, who: string)
    ensures var e := Entry(text, kind, who); |e| >= 2 && e[0] == '-' && e[1] == ' '
    ensures BreakFree(Entry(text, kind, who)) <==> BreakFree(Label(kind, who))
  {
    hide Label, Collapse, BreakFree;
    var origin, line := Label(kind, who), Collapse(text);
    var tag := if origin == "" then "" else "(" + origin + ") ";
    ThePunctuationIsBreakFree();
    BreakFreeAppends("(", origin);
    BreakFreeAppends("(" + origin, ") ");
    BreakFreeAppends("- ", tag);
    BreakFreeAppends("- " + tag, line);
  }

  lemma ThePunctuationIsBreakFree()
    ensures BreakFree("") && BreakFree("(") && BreakFree(") ") && BreakFree("- ")
  {
  }

  lemma BreakFreeAppends(a: string, b: string)
    ensures BreakFree(a + b) <==> BreakFree(a) && BreakFree(b)
  {
    if BreakFree(a + b) {
      assert forall c :: c in a ==> c in a + b;
      assert forall c :: c in b ==> c in a + b;
    }
  }

  // ----------------------------------------------------------------------- bodies made of entries

  lemma {:induction false} JoinAppend(lines: seq<string>, line: string)
    requires lines != []
    ensures Join(lines + [line], "\n") == Join(lines, "\n") + "\n" + line
  {
    if |lines| == 1 {
      assert lines + [line] == [lines[0], line] && (lines + [line])[1..] == [line];
    } else {
      JoinAppend(lines[1..], line);
      assert (lines + [line])[1..] == lines[1..] + [line];
      Associates(lines[0] + "\n", Join(lines[1..], "\n") + "\n", line);
      Associates(lines[0] + "\n", Join(lines[1..], "\n"), "\n");
    }
  }

  /** A body of entries starts with a dash, ends with no newline, and breaks by newlines only. */
  lemma {:induction false} EntriesMakeABody(entries: seq<string>)
    requires AllEntries(entries) && entries != []
    ensures var body := Join(entries, "\n");
      body != "" && body[0] == '-' && !IsNewline(body[|body| - 1]) && OnlyNewlines(body)
  {
    if |entries| == 1 {
      NewlineFree(entries[0]);
      var e := entries[0];
      assert e[|e| - 1] in e;
    } else {
      EntriesMakeABody(entries[1..]);
    }
  }

  lemma ABodyOfEntriesComesBack(entries: seq<string>)
    requires AllEntries(entries)
    ensures BodyBack(Join(entries, "\n")) == Join(entries, "\n")
  {
    var body := Join(entries, "\n");
    if entries != [] {
      EntriesMakeABody(entries);
    }
    TheBodyComesBackIffItBreaksByNewlines(body);
    TrimTrims(body, IsNewline);
  }

  lemma TheEntryGoesLast(entries: seq<string>, entry: string)
    requires AllEntries(entries)
    ensures Appended(Join(entries, "\n"), entry) == Join(entries + [entry], "\n")
  {
    var body := Join(entries, "\n");
    if entries == [] {
      assert Strip(body) == "";
      assert entries + [entry] == [entry];
    } else {
      EntriesMakeABody(entries);
      var stripped := TrimRight(body, IsSpace);
      assert stripped != "";
      assert stripped[0] == '-';
      assert Strip(body) != "";
      assert TrimRight(body, IsNewline) == body;
      JoinAppend(entries, entry);
    }
  }

  // ------------------------------------------------------------------------ fields under a touch

  lemma {:induction false} RemoveLast(fields: Fields, key: string, value: string)
    requires forall i :: 0 <= i < |fields| ==> fields[i].0 != key
    ensures RemoveField(fields + [(key, value)], key) == fields
  {
    if fields == [] {
      assert fields + [(key, value)] == [(key, value)];
    } else {
      RemoveLast(fields[1..], key, value);
      assert (fields + [(key, value)])[1..] == fields[1..] + [(key, value)];
    }
  }

  /** Setting a field before the stamp, then stamping, leaves the field set and `updated` last. */
  lemma {:induction false} SetThenTouch(fields: Fields, previous: string, key: string, value: string)
    requires forall i :: 0 <= i < |fields| ==> fields[i].0 != UPDATED
    ensures RemoveField(SetField(fields + [(UPDATED, previous)], key, value), UPDATED)
         == if key == UPDATED then fields else SetField(fields, key, value)
  {
    var all := fields + [(UPDATED, previous)];
    if fields == [] {
      assert all == [(UPDATED, previous)];
      assert all[1..] == [];
    } else {
      SetThenTouch(fields[1..], previous, key, value);
      assert all[1..] == fields[1..] + [(UPDATED, previous)];
      if fields[0].0 == key {
        RemoveLast(fields[1..], UPDATED, previous);
        assert SetField(all, key, value) == [(key, value)] + all[1..];
        assert ([(key, value)] + all[1..])[1..] == all[1..];
      } else {
        assert ([fields[0]] + SetField(all[1..], key, value))[1..] == SetField(all[1..], key, value);
      }
    }
  }

  /** Setting changes one value, or adds one field at the end; every other field stays where it is. */
  lemma {:induction false} SetFieldSets(fields: Fields, key: string, value: string)
    ensures var after := SetField(fields, key, value);
      && |fields| <= |after| <= |fields| + 1
      && (|after| == |fields| + 1 ==>
            after[|fields|] == (key, value) && forall i :: 0 <= i < |fields| ==> fields[i].0 != key)
      && (forall i :: 0 <= i < |fields| ==> after[i].0 == fields[i].0)
      && (forall i :: 0 <= i < |fields| ==> after[i] == fields[i] || after[i] == (key, value))
  {
    if fields != [] && fields[0].0 != key {
      SetFieldSets(fields[1..], key, value);
    }
  }

  lemma ReadBackOne(field: (string, string), rest: Fields)
    ensures ReadBack([field] + rest) == [(field.0, Normal(field.1))] + ReadBack(rest)
  {
    hide Normal;
    var all := [field] + rest;
    assert forall i :: 0 <= i < |rest| ==> all[i + 1] == rest[i];
  }

  lemma {:induction false} SetFieldReadsBack(fields: Fields, key: string, value: string)
    requires forall i :: 0 <= i < |fields| ==> IsNormal(fields[i].1)
    ensures ReadBack(SetField(fields, key, value)) == SetField(fields, key, Normal(value))
  {
    if fields == [] {
      ReadBackOne((key, value), []);
    } else if fields[0].0 == key {
      NormalFieldsReadBack(fields[1..]);
      ReadBackOne((key, value), fields[1..]);
    } else {
      SetFieldReadsBack(fields[1..], key, value);
      ReadBackOne(fields[0], SetField(fields[1..], key, value));
      NormalIsNormal(fields[0].1);
      assert (fields[0].0, Normal(fields[0].1)) == fields[0];
    }
  }

  lemma NormalFieldsReadBack(fields: Fields)
    requires forall i :: 0 <= i < |fields| ==> IsNormal(fields[i].1)
    ensures ReadBack(fields) == fields
  {
    forall i | 0 <= i < |fields| ensures ReadBack(fields)[i] == fields[i] {
      NormalIsNormal(fields[i].1);
    }
  }

  lemma StampedIsGood(fields: Fields, now: string)
    requires GoodFields(fields) && forall i :: 0 <= i < |fields| ==> fields[i].0 != UPDATED
    ensures GoodFields(fields + [(UPDATED, now)])
  {
    assert GoodKey(UPDATED);
  }

  // --------------------------------------------------------------------------- one command

  /** Each command takes a file that represents a log to one that represents the log it makes. */
  lemma ACommandRefinesItsLog(text: string, log: Log, op: Op)
    requires Represents(text, log) && GoodOp(op)
    ensures Rewritten(text, op).Success? && Represents(Rewritten(text, op).value, Logged(log, op))
  {
    match op {
      case Append(t, kind, who, now) => AppendRefines(text, log, t, kind, who, now);
      case Set(key, value, now) => SetRefines(text, log, key, value, now);
    }
  }

  lemma AppendRefines(text: string, log: Log, t: string, kind: string, who: string, now: string)
    requires Represents(text, log) && GoodOp(Append(t, kind, who, now))
    ensures Rewritten(text, Append(t, kind, who, now)).Success?
    ensures Represents(Rewritten(text, Append(t, kind, who, now)).value, Logged(log, Append(t, kind, who, now)))
  {
    AppendRewrites(text, log, t, kind, who, now);
    NormalFieldsReadBack(log.fields);
    OneMoreEntry(log.entries, t, kind, who);
    WrittenRepresents(log.fields, now, log.entries + [Entry(t, kind, who)]);
  }

  lemma AppendRewrites(text: string, log: Log, t: string, kind: string, who: string, now: string)
    requires Represents(text, log)
    ensures Rewritten(text, Append(t, kind, who, now))
         == Success(Render(log.fields + [(UPDATED, now)], Join(log.entries + [Entry(t, kind, who)], "\n")))
  {
    RemoveLast(log.fields, UPDATED, log.updated);
    TheEntryGoesLast(log.entries, Entry(t, kind, who));
  }

  lemma OneMoreEntry(entries: seq<string>, t: string, kind: string, who: string)
    requires AllEntries(entries) && BreakFree(Label(kind, who))
    ensures AllEntries(entries + [Entry(t, kind, who)])
  {
    AnEntryIsAnEntry(t, kind, who);
  }

  lemma SetRefines(text: string, log: Log, key: string, value: string, now: string)
    requires Represents(text, log) && GoodOp(Set(key, value, now))
    ensures Rewritten(text, Set(key, value, now)).Success?
    ensures Represents(Rewritten(text, Set(key, value, now)).value, Logged(log, Set(key, value, now)))
  {
    SetThenTouch(log.fields, log.updated, key, value);
    NormalFieldsReadBack(log.fields);
    if key == UPDATED {
      WrittenRepresents(log.fields, now, log.entries);
    } else {
      SetKeepsGood(log.fields, key, value);
      SetFieldReadsBack(log.fields, key, value);
      WrittenRepresents(SetField(log.fields, key, value), now, log.entries);
    }
  }

  lemma SetKeepsGood(fields: Fields, key: string, value: string)
    requires GoodFields(fields) && GoodKey(key) && key != UPDATED
    requires forall i :: 0 <= i < |fields| ==> fields[i].0 != UPDATED
    ensures GoodFields(SetField(fields, key, value))
    ensures forall i :: 0 <= i < |SetField(fields, key, value)| ==> SetField(fields, key, value)[i].0 != UPDATED
  {
    SetFieldSets(fields, key, value);
  }

  /** A write of good fields, a stamp and entries is a file that represents the log of them. */
  lemma WrittenRepresents(fields: Fields, now: string, entries: seq<string>)
    requires GoodFields(fields) && IsNormal(now) && AllEntries(entries)
    requires forall i :: 0 <= i < |fields| ==> fields[i].0 != UPDATED
    ensures Represents(Render(fields + [(UPDATED, now)], Join(entries, "\n")), Log(ReadBack(fields), entries, now))
  {
    Written(fields, now, entries);
    forall i | 0 <= i < |fields| ensures IsNormal(ReadBack(fields)[i].1) {
      NormalIsNormal(fields[i].1);
    }
  }

  /** What a write of fields, stamp and entries reads back as. */
  lemma Written(fields: Fields, now: string, entries: seq<string>)
    requires GoodFields(fields) && IsNormal(now) && AllEntries(entries)
    requires forall i :: 0 <= i < |fields| ==> fields[i].0 != UPDATED
    ensures SplitText(Render(fields + [(UPDATED, now)], Join(entries, "\n")))
         == Success((ReadBack(fields) + [(UPDATED, now)], Join(entries, "\n")))
  {
    StampedIsGood(fields, now);
    SplitUndoesRender(fields + [(UPDATED, now)], Join(entries, "\n"));
    ABodyOfEntriesComesBack(entries);
    StampReadsBack(fields, now);
  }

  lemma StampReadsBack(fields: Fields, now: string)
    requires IsNormal(now)
    ensures ReadBack(fields + [(UPDATED, now)]) == ReadBack(fields) + [(UPDATED, now)]
  {
    hide Normal;
    NormalIsNormal(now);
  }

  // ---------------------------------------------------------------------------- whole runs

  function FileAfter(text: string, ops: seq<Op>): Result<string, FormatError> {
    if ops == [] then Success(text)
    else
      match FileAfter(text, ops[..|ops| - 1])
      case Failure(e) => Failure(e)
      case Success(before) => Rewritten(before, ops[|ops| - 1])
  }

  function LogAfter(log: Log, ops: seq<Op>): Log {
    if ops == [] then log else Logged(LogAfter(log, ops[..|ops| - 1]), ops[|ops| - 1])
  }

  function EntriesOf(ops: seq<Op>): seq<string> {
    if ops == [] then []
    else
      var before, op := EntriesOf(ops[..|ops| - 1]), ops[|ops| - 1];
      if op.Append? then before + [Entry(op.text, op.kind, op.who)] else before
  }

  function FieldOf(fields: Fields, key: string): Option<string> {
    if fields == [] then None
    else if fields[0].0 == key then Some(fields[0].1)
    else FieldOf(fields[1..], key)
  }

  /** The last value a run set a field to, normalised; what it held before the run otherwise. */
  function LastSet(before: Option<string>, ops: seq<Op>, key: string): Option<string> {
    if ops == [] then before
    else
      var op := ops[|ops| - 1];
      if op.Set? && op.key == key then Some(Normal(op.value)) else LastSet(before, ops[..|ops| - 1], key)
  }

  /** The log `init` starts: its fields as they read back, stamped, with no entry. */
  function InitLog(fields: Fields, now: string): Log {
    Log(RemoveField(ReadBack(fields), UPDATED), [], now)
  }

  lemma GoodOne(field: (string, string), rest: Fields)
    ensures GoodFields([field] + rest) <==>
      GoodKey(field.0) && GoodFields(rest) && forall i :: 0 <= i < |rest| ==> rest[i].0 != field.0
  {
    var all := [field] + rest;
    assert all[0] == field && forall i :: 0 <= i < |rest| ==> all[i + 1] == rest[i];
  }

  lemma {:induction false} RemoveKeeps(fields: Fields, key: string)
    requires GoodFields(fields)
    ensures GoodFields(RemoveField(fields, key))
    ensures forall i :: 0 <= i < |RemoveField(fields, key)| ==> RemoveField(fields, key)[i] in fields
    ensures forall i :: 0 <= i < |RemoveField(fields, key)| ==> RemoveField(fields, key)[i].0 != key
  {
    if fields != [] {
      assert fields == [fields[0]] + fields[1..];
      GoodOne(fields[0], fields[1..]);
      if fields[0].0 != key {
        RemoveKeeps(fields[1..], key);
        GoodOne(fields[0], RemoveField(fields[1..], key));
      }
    }
  }

  lemma {:induction false} RemoveReadsBack(fields: Fields, key: string)
    ensures ReadBack(RemoveField(fields, key)) == RemoveField(ReadBack(fields), key)
  {
    if fields != [] {
      assert fields == [fields[0]] + fields[1..];
      ReadBackOne(fields[0], fields[1..]);
      if fields[0].0 != key {
        RemoveReadsBack(fields[1..], key);
        ReadBackOne(fields[0], RemoveField(fields[1..], key));
      }
    }
  }

  /** The fields `init` makes of its arguments have stripped keys, each once. */
  lemma {:induction false} InitFieldsAreKeyed(pairs: seq<string>)
    requires InitFields(pairs).Some?
    ensures var fields := InitFields(pairs).value;
      && (forall i :: 0 <= i < |fields| ==> Trimmed(fields[i].0, IsSpace))
      && (forall i, j :: 0 <= i < j < |fields| ==> fields[i].0 != fields[j].0)
  {
    hide Strip, IsSpace, Trim, Trimmed, SetField, FirstEquals;
    if pairs != [] {
      var n := |pairs| - 1;
      InitFieldsAreKeyed(pairs[..n]);
      var k := FirstEquals(pairs[n]);
      var key, value := Strip(pairs[n][..k]), Strip(pairs[n][k + 1..]);
      StripTrims(pairs[n][..k]);
      SetFieldSets(InitFields(pairs[..n]).value, key, value);
    }
  }

  lemma StripTrims(s: string)
    ensures Trimmed(Strip(s), IsSpace)
  {
    TrimTrims(s, IsSpace);
  }

  /** What `init` writes, for keys the format can carry: no colon and no line break in them. */
  lemma InitRepresents(pairs: seq<string>, fields: Fields, now: string)
    requires InitFields(pairs) == Some(fields) && IsNormal(now)
    requires forall i :: 0 <= i < |fields| ==> ':' !in fields[i].0 && BreakFree(fields[i].0)
    ensures Represents(Render(Touch(fields, now), ""), InitLog(fields, now))
  {
    InitFieldsAreKeyed(pairs);
    RemoveKeeps(fields, UPDATED);
    RemoveReadsBack(fields, UPDATED);
    WrittenRepresents(RemoveField(fields, UPDATED), now, []);
  }

  /** After `init` and any sequence of well-formed commands the file represents the abstract log. */
  lemma {:induction false} TheFileIsTheLog(text: string, log: Log, ops: seq<Op>)
    requires Represents(text, log) && forall op :: op in ops ==> GoodOp(op)
    ensures FileAfter(text, ops).Success? && Represents(FileAfter(text, ops).value, LogAfter(log, ops))
  {
    if ops != [] {
      var n := |ops| - 1;
      TheFileIsTheLog(text, log, ops[..n]);
      assert ops[n] in ops;
      ACommandRefinesItsLog(FileAfter(text, ops[..n]).value, LogAfter(log, ops[..n]), ops[n]);
    }
  }

  lemma {:induction false} TheLogKeepsItsEntries(log: Log, ops: seq<Op>)
    ensures LogAfter(log, ops).entries == log.entries + EntriesOf(ops)
  {
    if ops != [] {
      TheLogKeepsItsEntries(log, ops[..|ops| - 1]);
    }
  }

  lemma {:induction false} SetFieldGets(fields: Fields, key: string, value: string, other: string)
    ensures FieldOf(SetField(fields, key, value), other) == if other == key then Some(value) else FieldOf(fields, other)
  {
    if fields != [] && fields[0].0 != key {
      SetFieldGets(fields[1..], key, value, other);
    }
  }

  lemma {:induction false} TheLogHoldsTheLastValues(log: Log, ops: seq<Op>, key: string)
    requires key != UPDATED
    ensures FieldOf(LogAfter(log, ops).fields, key) == LastSet(FieldOf(log.fields, key), ops, key)
  {
    if ops != [] {
      var n := |ops| - 1;
      TheLogHoldsTheLastValues(log, ops[..n], key);
      var op := ops[n];
      if op.Set? && op.key != UPDATED {
        SetFieldGets(LogAfter(log, ops[..n]).fields, op.key, Normal(op.value), key);
      }
    }
  }

  lemma {:induction false} EntriesCount(entries: seq<string>)
    requires AllEntries(entries)
    ensures CountEntries(entries) == |entries|
    ensures SplitLines(Join(entries, "\n")) == entries
  {
    if entries != [] {
      var n := |entries| - 1;
      EntriesCount(entries[..n]);
      assert StartsWith(entries[n], "- ");
      SplitJoined(entries);
    }
  }

  /** The whole promise. A run of well-formed commands on a file that represents a log leaves a file
    * whose lines are the earlier entries and then the appended ones, in order and counted one each,
    * whose fields hold the last value set, collapsed to one line, and whose last field is `updated`. */
  lemma AppendOnlyOverWholeRuns(text: string, log: Log, ops: seq<Op>)
    requires Represents(text, log) && forall op :: op in ops ==> GoodOp(op)
    ensures FileAfter(text, ops).Success? && SplitText(FileAfter(text, ops).value).Success?
    ensures var (meta, body) := SplitText(FileAfter(text, ops).value).value;
      && SplitLines(body) == log.entries + EntriesOf(ops)
      && EntryCount(body) == |log.entries| + |EntriesOf(ops)|
      && meta != [] && meta[|meta| - 1] == (UPDATED, LogAfter(log, ops).updated)
      && (forall key :: key != UPDATED ==> FieldOf(meta, key) == LastSet(FieldOf(log.fields, key), ops, key))
  {
    TheFileIsTheLog(text, log, ops);
    var after := LogAfter(log, ops);
    TheLogKeepsItsEntries(log, ops);
    EntriesCount(after.entries);
    forall key | key != UPDATED ensures FieldOf(after.fields + [(UPDATED, after.updated)], key)
      == LastSet(FieldOf(log.fields, key), ops, key) {
      TheLogHoldsTheLastValues(log, ops, key);
      FieldBeforeTheStamp(after.fields, after.updated, key);
    }
  }

  lemma {:induction false} FieldBeforeTheStamp(fields: Fields, now: string, key: string)
    requires key != UPDATED
    ensures FieldOf(fields + [(UPDATED, now)], key) == FieldOf(fields, key)
  {
    if fields == [] {
      assert fields + [(UPDATED, now)] == [(UPDATED, now)];
    } else {
      FieldBeforeTheStamp(fields[1..], now, key);
      assert (fields + [(UPDATED, now)])[1..] == fields[1..] + [(UPDATED, now)];
    }
  }

  /** `text` is collapsed but `type` and `by` are not: an append adds exactly its own one line exactly
    * when the tag they make is free of line breaks. */
  lemma AnAppendAddsOneLineIffItsTagIsOneLine(text: string, log: Log, t: string, kind: string, who: string, now: string)
    requires Represents(text, log) && IsNormal(now)
    ensures Rewritten(text, Append(t, kind, who, now)).Success?
    ensures OneLineAdded(Rewritten(text, Append(t, kind, who, now)).value, log.entries, Entry(t, kind, who))
      <==> BreakFree(Label(kind, who))
  {
    var op := Append(t, kind, who, now);
    AnEntryIsAnEntry(t, kind, who);
    if BreakFree(Label(kind, who)) {
      AppendRefines(text, log, t, kind, who, now);
      EntriesCount(log.entries + [Entry(t, kind, who)]);
    } else if OneLineAdded(Rewritten(text, op).value, log.entries, Entry(t, kind, who)) {
      EntryIsALine(Rewritten(text, op).value, log.entries, Entry(t, kind, who));
    }
  }

  lemma EntryIsALine(text: string, entries: seq<string>, entry: string)
    requires OneLineAdded(text, entries, entry)
    ensures BreakFree(entry)
  {
    var lines := entries + [entry];
    assert lines[|entries|] == entry;
    assert entry in SplitLines(SplitText(text).value.1);
  }

  ghost predicate OneLineAdded(text: string, entries: seq<string>, entry: string) {
    SplitText(text).Success? && SplitLines(SplitText(text).value.1) == entries + [entry]
  }
}
