/**
 * A whole save of a `.env` file (backend/src/services/appEnv.ts): what every key reads as afterwards, also
 * when submitted values hold line breaks, and when a second save changes nothing. Lines inside a value become
 * lines of the file; most of the lemmas follow them through the merge, the writing and the next reading, first
 * for lists of lines and then for texts.
 */
module EnvFile {
  import opened Common
  import opened Strings
  import opened EnvText
  import opened EnvMerge

  // ----- The file -----

  function Lines(content: string): seq<string> {
    if content == "" then [] else Split(content)
  }

  function Save(content: string, order: seq<string>, p: Updates): string {
    FileText(Merge(Lines(content), order, p))
  }

  function Read(content: string, key: string): Option<string> {
    Lookup(Split(content), key)
  }

  lemma ReadIsLookup(content: string, key: string)
    ensures Read(content, key) == Lookup(Lines(content), key) && AllOneLine(Lines(content))
  {
    SplitIsOneLine(content);
    if content == "" {
      EmptyLineHoldsNothing([], key);
      assert [] + [""] == [""];
    }
  }

  // ----- The lines a value adds -----

  function FirstLine(value: string): string {
    Parts(value)[0]
  }

  /** What a value takes in the file behind the line of its key. */
  function Extra(value: string): seq<string> {
    Parts(Escape(value))[1..]
  }

  function ExtraOf(line: string, p: Updates): seq<string> {
    if Hits(line, p) then Extra(p[KeyIn(line, p)]) else []
  }

  function ExtraAppended(order: seq<string>, p: Updates): seq<string> {
    if order == [] then [] else (if order[0] in p then Extra(p[order[0]]) else []) + ExtraAppended(order[1..], p)
  }

  /** All the lines the updates add to the merged lines, in order. */
  function ExtraLines(lines: seq<string>, order: seq<string>, p: Updates): seq<string> {
    if lines == [] then ExtraAppended(order, p)
    else ExtraOf(lines[0], p) + ExtraLines(lines[1..], order, Left(lines[0], p))
  }

  function BehindAppended(order: seq<string>, p: Updates, key: string): seq<string> {
    if order == [] then []
    else if key in p && key in order[1..] then BehindAppended(order[1..], p, key)
    else ExtraAppended(order, p)
  }

  /** The lines the updates add behind the last line that belongs to a key. */
  function Behind(lines: seq<string>, order: seq<string>, p: Updates, key: string): seq<string> {
    if lines == [] then BehindAppended(order, p, key)
    else
      var left := Left(lines[0], p);
      if Occurs(lines[1..], key) > 0 || key in left then Behind(lines[1..], order, left, key)
      else ExtraLines(lines, order, p)
  }

  /** What the lines inside other values make of a key, when they speak of it behind its own last line. */
  function Overriding(content: string, order: seq<string>, p: Updates, key: string): Option<string> {
    Lookup(Behind(Lines(content), order, p, key), key)
  }

  lemma FirstLineIsLed(value: string)
    requires Led(value)
    ensures Led(FirstLine(value))
  {
    assert value[0] != '\n';
  }

  /** A written assignment falls into its key's line and the lines its value adds. */
  lemma WrittenParts(key: string, value: string)
    requires KeyName(key)
    ensures Parts(Assignment(key, value)) == [Assignment(key, FirstLine(value))] + Extra(value)
  {
    KeyHasNoBlanks(key);
    PartsBehind(key + "=", Escape(value));
    FirstPartEscaped(value);
  }

  /** The key's line of a line that was written, or left alone. */
  function Head(line: string, p: Updates): string {
    if Hits(line, p) then Assignment(KeyIn(line, p), FirstLine(p[KeyIn(line, p)])) else line
  }

  lemma RewrittenParts(line: string, p: Updates)
    requires Writable(p) && OneLine(line)
    ensures Parts(Rewritten(line, p)) == [Head(line, p)] + ExtraOf(line, p)
  {
    hide EntryOf;
    hide Parts;
    if Hits(line, p) {
      WrittenParts(KeyIn(line, p), p[KeyIn(line, p)]);
    } else {
      PartsOfOneLine(line);
    }
  }

  lemma HeadReads(line: string, p: Updates, key: string)
    requires Writable(p)
    ensures HasKey(Head(line, p), key) <==> HasKey(line, key)
    ensures HasKey(line, key) ==>
              Unescape(EntryOf(Head(line, p)).value.value) ==
              if key in p then Trim(FirstLine(p[key])) else Unescape(EntryOf(line).value.value)
  {
    hide EntryOf;
    hide FirstLine;
    hide Trim;
    if Hits(line, p) {
      var k := KeyIn(line, p);
      FirstLineIsLed(p[k]);
      AssignmentReads(k, FirstLine(p[k]));
    }
  }

  lemma LookupHead(line: string, extra: seq<string>, key: string)
    ensures Lookup([line] + extra, key) ==
            if Lookup(extra, key).Some? then Lookup(extra, key)
            else if HasKey(line, key) then Some(Unescape(EntryOf(line).value.value))
            else None
  {
    hide EntryOf;
    assert ([line] + extra)[1..] == extra;
  }

  // ----- What reads back -----

  lemma {:induction false} AppendedReads(order: seq<string>, p: Updates, key: string)
    requires Writable(p) && Distinct(order)
    ensures Lookup(AllParts(Appended(order, p)), key) ==
            if Lookup(BehindAppended(order, p, key), key).Some? then Lookup(BehindAppended(order, p, key), key)
            else if key in p && key in order then Some(Trim(FirstLine(p[key])))
            else None
  {
    hide EntryOf;
    hide Parts;
    hide Trim;
    hide FirstLine;
    hide Extra;
    hide Unescape;
    if order != [] {
      var k, rest := order[0], order[1..];
      assert order == [k] + rest;
      assert k !in rest;
      AppendedReads(rest, p, key);
      if k in p {
        WrittenParts(k, p[k]);
        FirstLineIsLed(p[k]);
        AssignmentReads(k, FirstLine(p[k]));
        var head := Assignment(k, FirstLine(p[k]));
        assert AllParts(Appended(order, p)) == ([head] + Extra(p[k])) + AllParts(Appended(rest, p)) by {
          assert ([Assignment(k, p[k])] + Appended(rest, p))[1..] == Appended(rest, p);
        }
        LookupAppend([head] + Extra(p[k]), AllParts(Appended(rest, p)), key);
        LookupHead(head, Extra(p[k]), key);
        LookupAppend(Extra(p[k]), ExtraAppended(rest, p), key);
      } else {
        assert Appended(order, p) == Appended(rest, p);
        assert [] + ExtraAppended(rest, p) == ExtraAppended(rest, p);
      }
      BehindAppendedIs(rest, p, key);
    }
  }

  /** Behind a key that is not itself appended, everything appended counts. */
  lemma BehindAppendedIs(order: seq<string>, p: Updates, key: string)
    ensures !(key in p && key in order) ==> BehindAppended(order, p, key) == ExtraAppended(order, p)
  {
  }

  lemma BehindIs(lines: seq<string>, order: seq<string>, p: Updates, key: string)
    requires Occurs(lines, key) == 0 && key !in p
    ensures Behind(lines, order, p, key) == ExtraLines(lines, order, p)
  {
    hide EntryOf;
    if lines == [] {
      BehindAppendedIs(order, p, key);
    }
  }

  /** What every key reads as once the merged lines have fallen into lines again. */
  lemma {:induction false} MergedReads(lines: seq<string>, order: seq<string>, p: Updates, key: string)
    requires Writable(p) && Distinct(order) && AllOneLine(lines)
    requires key in p ==> key in order
    ensures Lookup(AllParts(Merge(lines, order, p)), key) ==
            if Lookup(Behind(lines, order, p, key), key).Some? then Lookup(Behind(lines, order, p, key), key)
            else if key in p && Occurs(lines, key) <= 1 then Some(Trim(FirstLine(p[key])))
            else Lookup(lines, key)
  {
    hide EntryOf;
    hide Parts;
    hide Trim;
    hide FirstLine;
    hide Extra;
    hide Unescape;
    hide Escape;
    if lines == [] {
      AppendedReads(order, p, key);
    } else {
      var line, rest, left := lines[0], lines[1..], Left(lines[0], p);
      MergedReads(rest, order, left, key);
      RewrittenParts(line, p);
      HeadReads(line, p, key);
      LookupAbsent(rest, key);
      var head, extra := Head(line, p), ExtraOf(line, p);
      var merged := Merge(rest, order, left);
      hide Head;
      hide Merge;
      PartsOfMerge(lines, order, p);
      LookupAppend([head] + extra, AllParts(merged), key);
      LookupHead(head, extra, key);
      LookupAppend(extra, ExtraLines(rest, order, left), key);
      if Occurs(rest, key) == 0 && key !in left {
        BehindIs(rest, order, left, key);
      }
    }
  }

  lemma PartsOfMerge(lines: seq<string>, order: seq<string>, p: Updates)
    requires lines != []
    ensures AllParts(Merge(lines, order, p)) ==
            Parts(Rewritten(lines[0], p)) + AllParts(Merge(lines[1..], order, Left(lines[0], p)))
  {
    hide Parts;
    hide EntryOf;
    var merged := Merge(lines[1..], order, Left(lines[0], p));
    assert ([Rewritten(lines[0], p)] + merged)[1..] == merged;
  }

  /**
   * What a key reads as after a save, for every content and all submitted values: what lines inside the values
   * say of it behind its last line, if they do; else the first line of its own value, if it is written and stood
   * on at most one line; else what it read as before.
   */
  lemma SavedReads(content: string, order: seq<string>, p: Updates, key: string)
    requires Proper(order, p)
    ensures Read(Save(content, order, p), key) ==
            if Overriding(content, order, p, key).Some? then Overriding(content, order, p, key)
            else if key in p && Occurs(Lines(content), key) <= 1 then Some(Trim(FirstLine(p[key])))
            else Read(content, key)
  {
    hide FirstLine;
    hide Trim;
    hide Merge;
    hide Behind;
    var lines := Lines(content);
    ReadIsLookup(content, key);
    MergedReads(lines, order, p, key);
    WritingReadsParts(Merge(lines, order, p), key);
  }

  /**
   * A key that is not written keeps its value exactly when no line inside a submitted value gives it another
   * one behind its last line.
   */
  lemma UnwrittenKeyIsKeptIff(content: string, order: seq<string>, p: Updates, key: string)
    requires Proper(order, p) && key !in p
    ensures Read(Save(content, order, p), key) == Read(content, key) <==>
            Overriding(content, order, p, key).None? || Overriding(content, order, p, key) == Read(content, key)
  {
    hide Save;
    SavedReads(content, order, p, key);
  }

  /**
   * A written key reads back as its value exactly when no line inside a value overrides it otherwise, and its
   * value is one line that at most one line set before, or the line that had the last word said the same.
   */
  lemma WrittenKeyReadsBackIff(content: string, order: seq<string>, p: Updates, key: string)
    requires Proper(order, p) && key in p
    ensures Read(Save(content, order, p), key) == Some(p[key]) <==>
            if Overriding(content, order, p, key).Some? then Overriding(content, order, p, key) == Some(p[key])
            else if Occurs(Lines(content), key) <= 1 then OneLine(p[key])
            else Read(content, key) == Some(p[key])
  {
    hide Save;
    SavedReads(content, order, p, key);
    FirstLineIsAllIff(p[key]);
  }

  lemma FirstLineIsAllIff(value: string)
    requires Trimmed(value)
    ensures Trim(FirstLine(value)) == value <==> OneLine(value)
  {
    if OneLine(value) {
      PartsOfOneLine(value);
    } else {
      PartsJoin(value);
      assert OneLine(Parts(value)[0]);
      TrimAddsNothing(FirstLine(value));
    }
  }

  /** Values of one line add nothing, so no key is overridden. */
  lemma {:induction false} OneLinersAddNothing(lines: seq<string>, order: seq<string>, p: Updates, key: string)
    requires OneLiners(p) && Writable(p)
    ensures ExtraLines(lines, order, p) == [] && Behind(lines, order, p, key) == []
  {
    hide EntryOf;
    hide Extra;
    if lines == [] {
      AppendedAddNothing(order, p, key);
    } else {
      OneLinersAddNothing(lines[1..], order, Left(lines[0], p), key);
      if Hits(lines[0], p) {
        NoExtra(p[KeyIn(lines[0], p)]);
      }
    }
  }

  lemma {:induction false} AppendedAddNothing(order: seq<string>, p: Updates, key: string)
    requires OneLiners(p) && Writable(p)
    ensures ExtraAppended(order, p) == [] && BehindAppended(order, p, key) == []
  {
    hide Extra;
    if order != [] {
      AppendedAddNothing(order[1..], p, key);
      if order[0] in p {
        NoExtra(p[order[0]]);
      }
    }
  }

  lemma NoExtra(value: string)
    requires OneLine(value) && value != ""
    ensures Extra(value) == []
  {
    EscapeShape(value);
    PartsOfOneLine(Escape(value));
  }

  /** A value that holds a line break never reads back. */
  lemma LineBreaksDoNotReadBack(content: string, order: seq<string>, p: Updates, key: string)
    requires key in p && !OneLine(p[key])
    ensures Read(Save(content, order, p), key) != Some(p[key])
  {
    var text := Save(content, order, p);
    SplitIsOneLine(text);
    if Read(text, key).Some? {
      LookupIsOneLine(Split(text), key);
    }
  }

  /**
   * The value of one key sets another: the line break in it ends its line, and the rest is a line of its own.
   * So a secret can be overwritten by a save that does not name it.
   */
  lemma ValueSetsAnotherKey(f: string, t: string, a: string, r: string, e: string)
    requires KeyName(f) && KeyName(t) && f != t
    requires Trimmed(a) && Trimmed(r) && Trimmed(e) && OneLine(a) && OneLine(r) && OneLine(e)
    ensures var p: Updates := map[f := a + "\n" + t + "=" + e];
            && Proper([f], p) && Read(Assignment(t, r), t) == Some(r)
            && Read(Save(Assignment(t, r), [f], p), t) == Some(e)
  {
    hide EntryOf;
    hide Extra;
    hide FirstLine;
    hide Split;
    hide KeyName;
    hide Save;
    var p: Updates := map[f := a + "\n" + t + "=" + e];
    assert (set k | k in [f]) == {f};
    AssignmentReadsBack(t, r);
    AssignmentReadsBack(t, e);
    OneLineFile(t, r);
    ExtraOfBreak(a, t, e);
    var lines := [Assignment(t, r)];
    assert Lines(Assignment(t, r)) == lines;
    assert [f][1..] == [] && lines[1..] == [];
    assert ExtraAppended([f], p) == Extra(p[f]) + ExtraAppended([], p);
    assert !Hits(lines[0], p) && Left(lines[0], p) == p && ExtraOf(lines[0], p) == [] && Occurs([], t) == 0;
    assert ExtraLines(lines, [f], p) == [] + ExtraLines(lines[1..], [f], p);
    assert Behind(lines, [f], p, t) == [Assignment(t, e)];
    LookupSingle(Assignment(t, e), t);
    LookupSingle(Assignment(t, r), t);
    ReadIsLookup(Assignment(t, r), t);
    SavedReads(Assignment(t, r), [f], p, t);
  }

  /** A key that stands on two lines reads as its second line says, whatever is written. */
  lemma KeyOnTwoLinesKeepsLast(key: string, first: string, second: string, value: string)
    requires KeyName(key) && Trimmed(first) && Trimmed(second) && Trimmed(value)
    requires OneLine(first) && OneLine(second) && OneLine(value)
    ensures var content := Assignment(key, first) + "\n" + Assignment(key, second);
            Read(Save(content, [key], map[key := value]), key) == Some(second)
  {
    hide EntryOf;
    hide Assignment;
    hide Save;
    hide Split;
    hide Behind;
    hide KeyName;
    hide Trim;
    hide FirstLine;
    var a, b := Assignment(key, first), Assignment(key, second);
    var content := a + "\n" + b;
    var p: Updates := map[key := value];
    assert (set k | k in [key]) == {key};
    AssignmentShape(key, first);
    AssignmentReadsBack(key, first);
    AssignmentReadsBack(key, second);
    OneLineFile(key, second);
    SplitFirst(a, b);
    assert Lines(content) == [a, b] && Split(content) == [a, b];
    TwoOccur(a, b, key);
    OneLinersAddNothing([a, b], [key], p, key);
    SavedReads(content, [key], p, key);
  }

  lemma TwoOccur(a: string, b: string, key: string)
    requires HasKey(a, key) && HasKey(b, key)
    ensures Occurs([a, b], key) == 2 && Lookup([a, b], key) == Some(Unescape(EntryOf(b).value.value))
  {
    hide HasKey;
    assert [a, b][1..] == [b] && [b][1..] == [];
    assert Occurs([b], key) == 1;
    LookupSingle(b, key);
  }

  lemma OneLineFile(key: string, value: string)
    requires KeyName(key) && Trimmed(value) && OneLine(value)
    ensures Lines(Assignment(key, value)) == [Assignment(key, value)]
  {
    AssignmentShape(key, value);
  }

  lemma ExtraOfBreak(a: string, t: string, e: string)
    requires KeyName(t) && OneLine(a) && OneLine(e) && Trimmed(a) && Trimmed(e)
    ensures Extra(a + "\n" + t + "=" + e) == [Assignment(t, e)]
  {
    hide Escape;
    var rest := t + "=" + e;
    KeyHasNoBlanks(t);
    AssignmentShape(t, e);
    EscapeShape(a);
    EscapeAppend(a + "\n", rest);
    EscapeAppend(a, "\n");
    EscapeOne('\n');
    EscapeAppend(t + "=", e);
    EscapeKey(t);
    assert a + "\n" + t + "=" + e == (a + "\n") + rest;
    IndexIs(Escape(a), '\n', Assignment(t, e));
    Cut(Escape(a), "\n", Assignment(t, e));
    PartsOfOneLine(Assignment(t, e));
  }

  lemma EscapeKey(t: string)
    requires KeyName(t)
    ensures Escape(t + "=") == t + "="
  {
    NoDollarNoEscape(t + "=");
  }

  // ----- Saving again -----

  lemma {:induction false} AppendedIsOneLine(order: seq<string>, p: Updates)
    requires Writable(p) && OneLiners(p)
    ensures AllOneLine(Appended(order, p))
  {
    if order != [] {
      AppendedIsOneLine(order[1..], p);
      if order[0] in p {
        AssignmentShape(order[0], p[order[0]]);
      }
    }
  }

  lemma {:induction false} MergeIsOneLine(lines: seq<string>, order: seq<string>, p: Updates)
    requires Writable(p) && OneLiners(p) && AllOneLine(lines)
    ensures AllOneLine(Merge(lines, order, p))
  {
    hide EntryOf;
    if lines == [] {
      AppendedIsOneLine(order, p);
    } else {
      MergeIsOneLine(lines[1..], order, Left(lines[0], p));
      if Hits(lines[0], p) {
        AssignmentShape(KeyIn(lines[0], p), p[KeyIn(lines[0], p)]);
      }
    }
  }

  /** Every key's first line already is the line a save would write, and every key has one. */
  predicate Settled(lines: seq<string>, p: Updates) {
    if lines == [] then p == map[]
    else Rewritten(lines[0], p) == lines[0] && Settled(lines[1..], Left(lines[0], p))
  }

  lemma {:induction false} SettledMerges(lines: seq<string>, order: seq<string>, p: Updates)
    requires Settled(lines, p)
    ensures Merge(lines, order, p) == lines
  {
    if lines == [] {
      NothingAppended(order);
    } else {
      SettledMerges(lines[1..], order, Left(lines[0], p));
    }
  }

  lemma {:induction false} NothingAppended(order: seq<string>)
    ensures Appended(order, map[]) == []
  {
    if order != [] {
      NothingAppended(order[1..]);
    }
  }

  /** The second save asks for nothing the first did not: a hidden secret it generated is set by now. */
  predicate AsksNoMore(q: Updates, p: Updates) {
    forall k <- q :: k in p && q[k] == p[k]
  }

  lemma HitsAssignment(key: string, value: string, q: Updates)
    requires KeyName(key) && Trimmed(value) && (key in q ==> q[key] == value)
    ensures Rewritten(Assignment(key, value), q) == Assignment(key, value)
    ensures Left(Assignment(key, value), q) == q - {key}
  {
    AssignmentReadsBack(key, value);
    hide EntryOf;
  }

  lemma {:induction false} AppendedIsSettled(order: seq<string>, p: Updates, q: Updates)
    requires Writable(p) && AsksNoMore(q, p) && forall k <- q :: k in order
    ensures Settled(Appended(order, p), q)
  {
    hide EntryOf;
    if order == [] {
      assert q == map[];
    } else {
      var k := order[0];
      if k in p {
        HitsAssignment(k, p[k], q);
        AppendedIsSettled(order[1..], p, q - {k});
      } else {
        assert Appended(order, p) == Appended(order[1..], p);
        AppendedIsSettled(order[1..], p, q);
      }
    }
  }

  lemma {:induction false} MergeIsSettled(lines: seq<string>, order: seq<string>, p: Updates, q: Updates)
    requires Writable(p) && AsksNoMore(q, p) && forall k <- p :: k in order
    ensures Settled(Merge(lines, order, p), q)
  {
    hide EntryOf;
    if lines == [] {
      AppendedIsSettled(order, p, q);
    } else {
      var left := Left(lines[0], p);
      if Hits(lines[0], p) {
        var k := KeyIn(lines[0], p);
        HitsAssignment(k, p[k], q);
        MergeIsSettled(lines[1..], order, left, q - {k});
      } else {
        assert !Hits(lines[0], q);
        MergeIsSettled(lines[1..], order, left, q);
      }
    }
  }

  lemma {:induction false} SettledWithoutLast(lines: seq<string>, p: Updates)
    requires lines != [] && EntryOf(lines[|lines| - 1]).None?
    ensures Settled(lines, p) == Settled(lines[..|lines| - 1], p)
  {
    hide EntryOf;
    if |lines| > 1 {
      SettledWithoutLast(lines[1..], Left(lines[0], p));
      assert lines[1..][..|lines| - 2] == lines[..|lines| - 1][1..];
    }
  }

  lemma {:induction false} SettledKept(lines: seq<string>, p: Updates)
    requires Settled(lines, p)
    ensures Settled(Kept(lines), p)
  {
    EmptyLineHoldsNothing([], "");
    hide EntryOf;
    if lines == [] {
      SettledWithoutLast([""], p);
    } else if |lines| > 1 && lines[|lines| - 1] == "" {
      SettledWithoutLast(lines, p);
      SettledKept(lines[..|lines| - 1], p);
    }
  }

  lemma SettledLineHasNoCr(line: string, p: Updates)
    requires Writable(p) && Rewritten(line, p) == line
    ensures Rewritten(StripCr(line), p) == StripCr(line) && Left(StripCr(line), p) == Left(line, p)
  {
    EntryIgnoresCr(line);
    hide EntryOf;
    if Hits(line, p) {
      AssignmentShape(KeyIn(line, p), p[KeyIn(line, p)]);
    }
  }

  lemma {:induction false} SettledStripped(lines: seq<string>, p: Updates)
    requires Writable(p) && Settled(lines, p)
    ensures Settled(Stripped(lines), p)
  {
    hide EntryOf;
    if lines != [] {
      SettledLineHasNoCr(lines[0], p);
      SettledStripped(lines[1..], Left(lines[0], p));
    }
  }

  predicate EndsInCr(line: string) {
    line != "" && line[|line| - 1] == '\r'
  }

  predicate SomeCr(lines: seq<string>) {
    exists i :: 0 <= i < |lines| && EndsInCr(lines[i])
  }

  lemma {:induction false} StrippedLength(lines: seq<string>)
    ensures |Stripped(lines)| == |lines|
    ensures |Join(Stripped(lines))| <= |Join(lines)|
    ensures !SomeCr(lines) ==> Stripped(lines) == lines
    ensures SomeCr(lines) ==> |Join(Stripped(lines))| < |Join(lines)|
  {
    if lines != [] {
      StrippedLength(lines[1..]);
      assert lines == [lines[0]] + lines[1..];
      assert SomeCr(lines) <==> EndsInCr(lines[0]) || SomeCr(lines[1..]);
    }
  }

  lemma {:induction false} EndOnceLength(text: string)
    ensures |EndOnce(text)| <= |text| + 1
  {
    if text != "" && text[|text| - 1] == '\n' {
      EndOnceLength(text[..|text| - 1]);
    }
  }

  lemma {:induction false} KeptCr(lines: seq<string>)
    ensures SomeCr(Kept(lines)) == SomeCr(lines)
    ensures Kept(Kept(lines)) == Kept(lines) && Kept(lines) != []
    ensures Kept(Kept(lines) + [""]) == Kept(lines)
  {
    if |lines| > 1 && lines[|lines| - 1] == "" {
      KeptCr(lines[..|lines| - 1]);
      assert lines == lines[..|lines| - 1] + [""];
    } else {
      var kept := Kept(lines);
      assert (kept + [""])[..|kept|] == kept;
    }
  }

  /** Writing back the lines of a written file changes it exactly when some line still ended in a carriage return. */
  lemma RewritingIsStableIff(lines: seq<string>)
    requires AllOneLine(lines)
    ensures FileText(Stripped(Kept(lines)) + [""]) == FileText(lines) <==> !SomeCr(lines)
  {
    var kept := Kept(lines);
    var again := Stripped(kept);
    FileTextIs(lines);
    KeptCr(lines);
    StrippedLength(kept);
    if SomeCr(lines) {
      JoinSnoc(again, "");
      assert Join(again) + "\n" + "" == Join(again) + "\n";
      EndOnceAfterBreak(Join(again));
      EndOnceLength(Join(again));
      assert |FileText(again + [""])| < |Join(kept) + "\n"|;
    } else {
      AddEmptyLine(kept);
    }
  }

  lemma AddEmptyLine(kept: seq<string>)
    requires AllOneLine(kept) && Kept(kept + [""]) == kept
    ensures FileText(kept + [""]) == Join(kept) + "\n"
  {
    FileTextIs(kept + [""]);
  }

  /** Some line of the file that is not rewritten ends in a carriage return before its line break. */
  predicate KeepsCr(lines: seq<string>, p: Updates) {
    exists i :: 0 <= i < |lines| && EndsInCr(lines[i])
      && !(Hits(lines[i], p) && Occurs(lines[..i], KeyIn(lines[i], p)) == 0)
  }

  lemma MergedCr(lines: seq<string>, order: seq<string>, p: Updates)
    requires Writable(p)
    ensures SomeCr(Merge(lines, order, p)) <==> KeepsCr(lines, p)
  {
    hide Merge;
    hide EntryOf;
    hide EndsInCr;
    var merged := Merge(lines, order, p);
    MergeIsLonger(lines, order, p);
    forall i | 0 <= i < |lines|
      ensures EndsInCr(merged[i]) <==>
                EndsInCr(lines[i]) && !(Hits(lines[i], p) && Occurs(lines[..i], KeyIn(lines[i], p)) == 0)
    {
      OtherLinesStay(lines, order, p, i);
      if Hits(lines[i], p) {
        AssignmentHasNoCr(KeyIn(lines[i], p), p[KeyIn(lines[i], p)]);
      }
    }
    forall i | |lines| <= i < |merged| ensures !EndsInCr(merged[i]) {
      BehindMerged(lines, order, p, i);
    }
    if SomeCr(merged) {
      var i :| 0 <= i < |merged| && EndsInCr(merged[i]);
      assert i < |lines|;
    }
  }

  lemma AssignmentHasNoCr(key: string, value: string)
    requires KeyName(key) && Trimmed(value)
    ensures !EndsInCr(Assignment(key, value))
  {
    AssignmentShape(key, value);
  }

  lemma {:induction false} BehindMerged(lines: seq<string>, order: seq<string>, p: Updates, i: nat)
    requires Writable(p) && |lines| <= i < |Merge(lines, order, p)|
    ensures !EndsInCr(Merge(lines, order, p)[i])
  {
    hide EntryOf;
    hide EndsInCr;
    if lines == [] {
      AppendedHasNoCr(order, p, i);
    } else {
      BehindMerged(lines[1..], order, Left(lines[0], p), i - 1);
    }
  }

  lemma {:induction false} AppendedHasNoCr(order: seq<string>, p: Updates, i: nat)
    requires Writable(p) && i < |Appended(order, p)|
    ensures !EndsInCr(Appended(order, p)[i])
  {
    hide EndsInCr;
    if order[0] in p {
      AssignmentHasNoCr(order[0], p[order[0]]);
      if i > 0 {
        AppendedHasNoCr(order[1..], p, i - 1);
      }
    } else {
      AppendedHasNoCr(order[1..], p, i);
    }
  }

  lemma SettledSaveIsIdleIff(content: string, order: seq<string>, p: Updates, again: seq<string>, q: Updates)
    requires Proper(order, p) && OneLiners(p) && AsksNoMore(q, p)
    ensures Save(Save(content, order, p), again, q) == Save(content, order, p) <==>
            !SomeCr(Merge(Lines(content), order, p))
  {
    hide Merge;
    hide SomeCr;
    hide Settled;
    var merged := Merge(Lines(content), order, p);
    ReadIsLookup(content, "");
    MergeIsOneLine(Lines(content), order, p);
    MergeIsSettled(Lines(content), order, p, q);
    SplitFileText(merged);
    FileTextIs(merged);
    SettledKept(merged, q);
    SettledStripped(Kept(merged), q);
    var lines := Stripped(Kept(merged)) + [""];
    EmptyLineHoldsNothing([], "");
    assert lines[..|lines| - 1] == Stripped(Kept(merged));
    SettledWithoutLast(lines, q);
    SettledMerges(lines, again, q);
    RewritingIsStableIff(merged);
  }

  // ----- A second save with other values, or with line breaks -----

  /** What the first line of a key says. */
  function First(lines: seq<string>, key: string): Option<string> {
    if lines == [] then None
    else if HasKey(lines[0], key) then Some(Unescape(EntryOf(lines[0]).value.value))
    else First(lines[1..], key)
  }

  lemma {:induction false} FirstStripped(lines: seq<string>, key: string)
    ensures First(Stripped(lines), key) == First(lines, key)
  {
    hide EntryOf;
    if lines != [] {
      FirstStripped(lines[1..], key);
      EntryIgnoresCr(lines[0]);
    }
  }

  lemma {:induction false} FirstWithEmpty(lines: seq<string>, key: string)
    ensures First(lines + [""], key) == First(lines, key)
  {
    if lines == [] {
      EmptyLineHoldsNothing([], key);
      assert [] + [""] == [""];
      assert [""][1..] == [];
    } else {
      FirstWithEmpty(lines[1..], key);
      assert (lines + [""])[1..] == lines[1..] + [""];
    }
  }

  lemma {:induction false} FirstKept(lines: seq<string>, key: string)
    ensures First(Kept(lines), key) == First(lines, key)
  {
    hide EntryOf;
    if lines == [] {
      FirstWithEmpty([], key);
      assert [] + [""] == [""];
    } else if |lines| > 1 && lines[|lines| - 1] == "" {
      FirstKept(lines[..|lines| - 1], key);
      FirstWithEmpty(lines[..|lines| - 1], key);
      assert lines == lines[..|lines| - 1] + [""];
    }
  }

  lemma {:induction false} FirstAppended(order: seq<string>, p: Updates, key: string)
    requires Writable(p) && key in p && key in order
    ensures First(Appended(order, p), key) == Some(p[key])
  {
    hide EntryOf;
    if order[0] in p {
      AssignmentReadsBack(order[0], p[order[0]]);
    }
    if order[0] != key {
      FirstAppended(order[1..], p, key);
      assert order[0] !in p ==> Appended(order, p) == Appended(order[1..], p);
    }
  }

  lemma {:induction false} FirstMerged(lines: seq<string>, order: seq<string>, p: Updates, key: string)
    requires Writable(p) && key in p && key in order
    ensures First(Merge(lines, order, p), key) == Some(p[key])
  {
    hide EntryOf;
    if lines == [] {
      FirstAppended(order, p, key);
    } else {
      if Hits(lines[0], p) {
        AssignmentReadsBack(KeyIn(lines[0], p), p[KeyIn(lines[0], p)]);
      }
      if !HasKey(lines[0], key) {
        FirstMerged(lines[1..], order, Left(lines[0], p), key);
      }
    }
  }

  /** After a save of one-line values, the first line of a written key holds its value. */
  lemma FirstSaved(content: string, order: seq<string>, p: Updates, key: string)
    requires Proper(order, p) && OneLiners(p) && key in p
    ensures First(Split(Save(content, order, p)), key) == Some(p[key])
  {
    hide Merge;
    var merged := Merge(Lines(content), order, p);
    ReadIsLookup(content, key);
    MergeIsOneLine(Lines(content), order, p);
    SplitFileText(merged);
    FirstWithEmpty(Stripped(Kept(merged)), key);
    FirstStripped(Kept(merged), key);
    FirstKept(merged, key);
    FirstMerged(Lines(content), order, p, key);
  }

  /** How many lines hold more than blanks. */
  function Solid(lines: seq<string>): nat {
    if lines == [] then 0 else (if Trim(lines[0]) != "" then 1 else 0) + Solid(lines[1..])
  }

  lemma {:induction false} SolidAppend(a: seq<string>, b: seq<string>)
    ensures Solid(a + b) == Solid(a) + Solid(b)
  {
    hide Trim;
    if a == [] {
      assert a + b == b;
    } else {
      SolidAppend(a[1..], b);
      assert (a + b)[1..] == a[1..] + b;
    }
  }

  lemma SolidWithEmpty(lines: seq<string>)
    ensures Solid(lines + [""]) == Solid(lines)
  {
    SolidAppend(lines, [""]);
    assert Trim("") == "";
    assert [""][1..] == [];
  }

  lemma {:induction false} SolidStripped(lines: seq<string>)
    ensures Solid(Stripped(lines)) == Solid(lines)
  {
    hide Trim;
    if lines != [] {
      SolidStripped(lines[1..]);
      TrimIgnoresCr(lines[0]);
    }
  }

  lemma TrimIgnoresCr(line: string)
    ensures Trim(StripCr(line)) == Trim(line)
  {
  }

  lemma {:induction false} SolidKept(lines: seq<string>)
    ensures Solid(Kept(lines)) == Solid(lines)
  {
    hide Trim;
    if lines == [] {
      SolidWithEmpty([]);
      assert [] + [""] == [""];
    } else if |lines| > 1 && lines[|lines| - 1] == "" {
      SolidKept(lines[..|lines| - 1]);
      SolidWithEmpty(lines[..|lines| - 1]);
      assert lines == lines[..|lines| - 1] + [""];
    }
  }

  /** Writing lines neither makes nor loses a line that holds more than blanks. */
  lemma SolidWritten(lines: seq<string>)
    ensures Solid(Split(FileText(lines))) == Solid(AllParts(lines))
  {
    hide Trim;
    hide Parts;
    var parts := AllParts(lines);
    AllPartsJoin(lines);
    SplitFileText(parts);
    SolidWithEmpty(Stripped(Kept(parts)));
    SolidStripped(Kept(parts));
    SolidKept(parts);
  }

  lemma {:induction false} TrimRightKeeps(s: string, i: nat)
    requires i < |s| && !Blank(s[i])
    ensures i < |TrimRight(s)| && TrimRight(s)[i] == s[i]
  {
    if Blank(s[|s| - 1]) {
      TrimRightKeeps(s[..|s| - 1], i);
    }
  }

  lemma {:induction false} TrimLeftLeaves(s: string, i: nat)
    requires i < |s| && !Blank(s[i])
    ensures TrimLeft(s) != ""
  {
    if Blank(s[0]) {
      TrimLeftLeaves(s[1..], i - 1);
    }
  }

  lemma HoldsMoreThanBlanks(s: string, i: nat)
    requires i < |s| && !Blank(s[i])
    ensures Trim(s) != ""
  {
    TrimRightKeeps(s, i);
    TrimLeftLeaves(TrimRight(s), i);
  }

  lemma {:induction false} LastPartIsSolid(s: string)
    requires s != "" && !Blank(s[|s| - 1])
    ensures Solid(Parts(s)) >= 1
  {
    hide Trim;
    var n := IndexOf(s, '\n');
    if n == |s| {
      HoldsMoreThanBlanks(s, |s| - 1);
    } else {
      assert s[n] == '\n';
      LastPartIsSolid(s[n + 1..]);
      SolidAppend([s[..n]], Parts(s[n + 1..]));
    }
  }

  /** A trimmed text that holds a line break falls into at least two lines that hold more than blanks. */
  lemma BothEndsAreSolid(s: string)
    requires Trimmed(s)
    ensures Solid(Parts(s)) >= if OneLine(s) then 1 else 2
  {
    hide Trim;
    LastPartIsSolid(s);
    NotBeforeIndex(s, '\n');
    var n := IndexOf(s, '\n');
    if n < |s| {
      assert s[n] == '\n' && n > 0;
      HoldsMoreThanBlanks(s[..n], 0);
      LastPartIsSolid(s[n + 1..]);
      SolidAppend([s[..n]], Parts(s[n + 1..]));
      assert [s[..n]][1..] == [];
    }
  }

  lemma AssignmentIsSolid(key: string, value: string)
    requires KeyName(key) && Trimmed(value)
    ensures Solid(Parts(Assignment(key, value))) >= if OneLine(value) then 1 else 2
  {
    AssignmentShape(key, value);
    EscapeShape(value);
    BothEndsAreSolid(Assignment(key, value));
  }

  lemma {:induction false} AppendedIsSolid(order: seq<string>, p: Updates)
    requires Writable(p)
    ensures (exists k :: k in p && k in order && !OneLine(p[k])) ==> Solid(AllParts(Appended(order, p))) > 0
  {
    hide Trim;
    hide Parts;
    if order != [] {
      AppendedIsSolid(order[1..], p);
      if order[0] in p {
        var line := Assignment(order[0], p[order[0]]);
        AssignmentIsSolid(order[0], p[order[0]]);
        assert ([line] + Appended(order[1..], p))[1..] == Appended(order[1..], p);
        SolidAppend(Parts(line), AllParts(Appended(order[1..], p)));
      } else {
        assert Appended(order, p) == Appended(order[1..], p);
      }
    }
  }

  lemma {:induction false} MergedIsSolid(lines: seq<string>, order: seq<string>, p: Updates)
    requires Writable(p) && AllOneLine(lines)
    ensures Solid(AllParts(Merge(lines, order, p))) >= Solid(lines)
    ensures (exists k :: k in p && k in order && !OneLine(p[k])) ==> Solid(AllParts(Merge(lines, order, p))) > Solid(lines)
  {
    hide EntryOf;
    hide Parts;
    hide Trim;
    if lines == [] {
      AppendedIsSolid(order, p);
    } else {
      var line, rest, left := lines[0], lines[1..], Left(lines[0], p);
      MergedIsSolid(rest, order, left);
      PartsOfMerge(lines, order, p);
      SolidAppend(Parts(Rewritten(line, p)), AllParts(Merge(rest, order, left)));
      if Hits(line, p) {
        AssignmentIsSolid(KeyIn(line, p), p[KeyIn(line, p)]);
      } else {
        PartsOfOneLine(line);
        assert [line][1..] == [];
      }
    }
  }

  /** Saving a value that holds a line break changes the file every time, even to itself. */
  lemma LineBreakAlwaysChanges(content: string, order: seq<string>, p: Updates, key: string)
    requires Proper(order, p) && key in p && !OneLine(p[key])
    ensures Save(content, order, p) != content
  {
    hide Merge;
    hide Trim;
    hide Parts;
    var lines := Lines(content);
    ReadIsLookup(content, key);
    MergedIsSolid(lines, order, p);
    SolidWritten(Merge(lines, order, p));
    assert key in order;
    if content == "" {
      SolidWithEmpty([]);
      assert [] + [""] == [""];
    }
    assert Solid(Split(Save(content, order, p))) > Solid(Split(content));
  }

  /**
   * A second save for keys of the first leaves the file alone exactly when its values are single lines, are the
   * ones the first save wrote, and no line that was not rewritten ended in a carriage return before its line
   * break. (A key that only the first save wrote had a value of one line, as generated secrets have.)
   */
  lemma SecondSaveChangesNothingIff(content: string, order: seq<string>, p: Updates, again: seq<string>, q: Updates)
    requires Proper(order, p) && Proper(again, q)
    requires forall k <- q :: k in p
    requires forall k <- p :: !OneLine(p[k]) ==> k in q && q[k] == p[k]
    ensures Save(Save(content, order, p), again, q) == Save(content, order, p) <==>
            OneLiners(q) && AsksNoMore(q, p) && !KeepsCr(Lines(content), p)
  {
    hide Save;
    hide KeepsCr;
    var first := Save(content, order, p);
    if !OneLiners(q) {
      var k :| k in q && !OneLine(q[k]);
      LineBreakAlwaysChanges(first, again, q, k);
    } else {
      assert OneLiners(p);
      if AsksNoMore(q, p) {
        SettledSaveIsIdleIff(content, order, p, again, q);
        MergedCr(Lines(content), order, p);
      } else {
        var k :| k in q && q[k] != p[k];
        FirstSaved(content, order, p, k);
        FirstSaved(first, again, q, k);
      }
    }
  }
}
