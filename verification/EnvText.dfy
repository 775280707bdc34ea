/**
 * The text of a `.env` file: lines, entries and the escaping of `$` (backend/src/utils/envFile.ts), and how
 * backend/src/services/appEnv.ts splits a file into lines and writes lines back. An entry is a line with a
 * key; a text that holds line breaks falls into several lines when it is written.
 */
module EnvText {
  import opened Common
  import opened Strings

  // ----- Escaping -----

  /** Compose reads `$$` as a literal `$`. */
  function Escape(v: string): string {
    if v == "" then "" else (if v[0] == '$' then "$$" else [v[0]]) + Escape(v[1..])
  }

  function Unescape(v: string): string {
    if v == "" then ""
    else if |v| >= 2 && v[0] == '$' && v[1] == '$' then "$" + Unescape(v[2..])
    else [v[0]] + Unescape(v[1..])
  }

  lemma {:induction false} UnescapeInvertsEscape(v: string)
    ensures Unescape(Escape(v)) == v
  {
    if v != "" {
      UnescapeInvertsEscape(v[1..]);
      var rest := Escape(v[1..]);
      if v[0] == '$' {
        assert ("$$" + rest)[2..] == rest;
      } else {
        assert ([v[0]] + rest)[1..] == rest;
      }
    }
  }

  /** Escaping keeps the first and last character and adds none but `$`. */
  lemma {:induction false} EscapeShape(v: string)
    requires v != ""
    ensures Escape(v) != "" && Escape(v)[0] == v[0] && Escape(v)[|Escape(v)| - 1] == v[|v| - 1]
    ensures forall c :: c in Escape(v) <==> c in v
  {
    assert v == [v[0]] + v[1..];
    if |v| > 1 {
      EscapeShape(v[1..]);
    }
  }

  lemma {:induction false} UnescapeAddsNothing(v: string, c: char)
    requires c in Unescape(v)
    ensures c in v
  {
    if |v| >= 2 && v[0] == '$' && v[1] == '$' {
      if c != '$' {
        UnescapeAddsNothing(v[2..], c);
      }
    } else if c != v[0] {
      UnescapeAddsNothing(v[1..], c);
    }
  }

  lemma {:induction false} NoDollarNoEscape(s: string)
    requires '$' !in s
    ensures Escape(s) == s
  {
    if s != "" {
      NoDollarNoEscape(s[1..]);
      assert s == [s[0]] + s[1..];
    }
  }

  // ----- Entries -----

  datatype Entry = Entry(key: string, value: string)

  /** The `KEY=value` a line holds; blank lines, comments and lines without a key hold none. */
  function EntryOf(line: string): Option<Entry> {
    var t := Trim(line);
    if t == "" || t[0] == '#' then None
    else
      var eq := IndexOf(t, '=');
      if eq == 0 || eq == |t| then None else Some(Entry(Trim(t[..eq]), Trim(t[eq + 1..])))
  }

  /** The trimmed line is a text that begins no comment and holds no `=`, that sign, and a text behind it. */
  ghost predicate Holds(line: string, e: Entry) {
    exists left, right :: left != "" && left[0] != '#' && '=' !in left && Trim(line) == left + "=" + right
      && e.key == Trim(left) && e.value == Trim(right)
  }

  lemma EntryIff(line: string, e: Entry)
    ensures EntryOf(line) == Some(e) <==> Holds(line, e)
  {
    var t := Trim(line);
    hide Trim;
    var eq := IndexOf(t, '=');
    NotBeforeIndex(t, '=');
    if EntryOf(line) == Some(e) {
      assert t == t[..eq] + "=" + t[eq + 1..];
      assert t[..eq][0] == t[0];
    } else if left, right :| left != "" && left[0] != '#' && '=' !in left && t == left + "=" + right
                             && e.key == Trim(left) && e.value == Trim(right) {
      IndexIs(left, '=', right);
      Cut(left, "=", right);
      assert t[0] == left[0];
    }
  }

  /** A dollar sign that no other follows or precedes reads as it stands. */
  lemma {:induction false} LoneDollarsStay(v: string)
    requires forall i :: 0 <= i < |v| - 1 ==> !(v[i] == '$' && v[i + 1] == '$')
    ensures Unescape(v) == v
  {
    if v != "" {
      assert forall i :: 0 <= i < |v[1..]| ==> v[1..][i] == v[i + 1];
      LoneDollarsStay(v[1..]);
      assert v == [v[0]] + v[1..];
    }
  }

  predicate HasKey(line: string, key: string) {
    EntryOf(line).Some? && EntryOf(line).value.key == key
  }

  /** What reading a list of lines gives for a key: the last line that sets it wins. */
  function Lookup(lines: seq<string>, key: string): Option<string> {
    if lines == [] then None
    else
      var later := Lookup(lines[1..], key);
      if later.Some? then later
      else if HasKey(lines[0], key) then Some(Unescape(EntryOf(lines[0]).value.value))
      else None
  }

  lemma {:induction false} LookupAppend(a: seq<string>, b: seq<string>, key: string)
    ensures Lookup(a + b, key) == if Lookup(b, key).Some? then Lookup(b, key) else Lookup(a, key)
  {
    if a == [] {
      assert a + b == b;
    } else {
      LookupAppend(a[1..], b, key);
      assert (a + b)[1..] == a[1..] + b;
    }
  }

  lemma LookupSingle(line: string, key: string)
    ensures Lookup([line], key) == if HasKey(line, key) then Some(Unescape(EntryOf(line).value.value)) else None
  {
    hide EntryOf;
    assert [line][1..] == [];
  }

  lemma LookupSnoc(lines: seq<string>, i: nat, key: string)
    requires i < |lines|
    ensures Lookup(lines[..i + 1], key) ==
            if HasKey(lines[i], key) then Some(Unescape(EntryOf(lines[i]).value.value)) else Lookup(lines[..i], key)
  {
    hide EntryOf;
    assert lines[..i + 1] == lines[..i] + [lines[i]];
    LookupAppend(lines[..i], [lines[i]], key);
    LookupSingle(lines[i], key);
  }

  /** A variable name as the dashboard's routes accept it. */
  predicate KeyName(k: string) {
    k != "" && 'A' <= k[0] <= 'Z' && forall c <- k :: 'A' <= c <= 'Z' || '0' <= c <= '9' || c == '_'
  }

  /** A capital letter, and then capital letters, digits and underscores. */
  lemma KeyNameIff(k: string)
    ensures KeyName(k) <==>
              && k != "" && k[0] !in "0123456789_"
              && forall c <- k :: c in "ABCDEFGHIJKLMNOPQRSTUVWXYZ0123456789_"
  {
    forall c ensures c in "ABCDEFGHIJKLMNOPQRSTUVWXYZ0123456789_" <==> 'A' <= c <= 'Z' || '0' <= c <= '9' || c == '_' {
      KeyAlphabet(c);
    }
    if k != "" {
      DigitsAndUnderscore(k[0]);
      assert k[0] in k;
    }
  }

  predicate OneLine(s: string) {
    '\n' !in s
  }

  /** Neither empty nor with blanks at its ends. */
  predicate Trimmed(v: string) {
    v != "" && !Blank(v[0]) && !Blank(v[|v| - 1])
  }

  function Assignment(key: string, value: string): string {
    key + "=" + Escape(value)
  }

  lemma {:induction false} KeyHasNoBlanks(k: string)
    requires KeyName(k)
    ensures '=' !in k && '\n' !in k && '\r' !in k && Trim(k) == k
  {
    assert k[|k| - 1] in k;
  }

  lemma AssignmentShape(key: string, value: string)
    requires KeyName(key) && Trimmed(value)
    ensures var line := Assignment(key, value);
            line != "" && Trim(line) == line && line[|line| - 1] == value[|value| - 1] && line[0] == key[0]
    ensures OneLine(value) ==> OneLine(Assignment(key, value))
  {
    EscapeShape(value);
    KeyHasNoBlanks(key);
    var line := Assignment(key, value);
    assert line[0] == key[0];
  }

  /** Begins with a character that trimming leaves. */
  predicate Led(v: string) {
    v != "" && !Blank(v[0])
  }

  lemma {:induction false} EscapeAppend(a: string, b: string)
    ensures Escape(a + b) == Escape(a) + Escape(b)
  {
    if a == "" {
      assert a + b == b;
    } else {
      EscapeAppend(a[1..], b);
      assert (a + b)[0] == a[0] && (a + b)[1..] == a[1..] + b;
      Assoc(if a[0] == '$' then "$$" else [a[0]], Escape(a[1..]), Escape(b));
    }
  }

  /** Escaping and trimming on the right can be done in either order. */
  lemma {:induction false} EscapeTrimmed(v: string)
    ensures TrimRight(Escape(v)) == Escape(TrimRight(v))
  {
    if v != "" {
      var n := |v| - 1;
      assert v == v[..n] + [v[n]];
      EscapeAppend(v[..n], [v[n]]);
      EscapeOne(v[n]);
      if Blank(v[n]) {
        EscapeTrimmed(v[..n]);
        assert (Escape(v[..n]) + [v[n]])[..|Escape(v[..n])|] == Escape(v[..n]);
      }
    }
  }

  lemma EscapeOne(c: char)
    ensures Escape([c]) == if c == '$' then "$$" else [c]
  {
    assert [c][1..] == "";
  }

  lemma {:induction false} TrimRightBehind(a: string, v: string)
    requires Led(v)
    ensures Led(TrimRight(v)) && TrimRight(a + v) == a + TrimRight(v) && TrimRight(TrimRight(v)) == TrimRight(v)
  {
    var n := |v| - 1;
    assert (a + v)[|a + v| - 1] == v[n];
    if Blank(v[n]) {
      assert (a + v)[..|a + v| - 1] == a + v[..n];
      TrimRightBehind(a, v[..n]);
    }
  }

  /** A written assignment reads back as its key and its trimmed value. */
  lemma AssignmentReads(key: string, value: string)
    requires KeyName(key) && Led(value)
    ensures EntryOf(Assignment(key, value)) == Some(Entry(key, Escape(TrimRight(value))))
    ensures Unescape(EntryOf(Assignment(key, value)).value.value) == Trim(value)
  {
    hide Blank;
    hide Escape;
    hide Unescape;
    hide TrimRight;
    KeyHasNoBlanks(key);
    EscapeLed(value);
    EscapeTrimmed(value);
    TrimRightBehind(key + "=", Escape(value));
    TrimRightBehind("", value);
    var e := TrimRight(Escape(value));
    EntryOfAssignment(key, Assignment(key, value), e);
    UnescapeInvertsEscape(TrimRight(value));
    TrimOfLed(value);
  }

  lemma EscapeLed(v: string)
    requires Led(v)
    ensures Led(Escape(v))
  {
    EscapeShape(v);
  }

  lemma TrimOfLed(v: string)
    requires Led(TrimRight(v))
    ensures Trim(v) == TrimRight(v)
  {
  }

  lemma EntryOfAssignment(key: string, line: string, e: string)
    requires KeyName(key) && Trim(key) == key && '=' !in key
    requires TrimRight(line) == key + "=" + e && Led(e) && TrimRight(e) == e
    ensures EntryOf(line) == Some(Entry(key, e))
  {
    var t := key + "=" + e;
    assert t[0] == key[0];
    IndexIs(key, '=', e);
    Cut(key, "=", e);
  }

  /** A written assignment of a trimmed value reads back as exactly that. */
  lemma AssignmentReadsBack(key: string, value: string)
    requires KeyName(key) && Trimmed(value)
    ensures EntryOf(Assignment(key, value)) == Some(Entry(key, Escape(value)))
    ensures Unescape(EntryOf(Assignment(key, value)).value.value) == value
  {
    AssignmentReads(key, value);
  }

  // ----- Splitting a file into lines, and writing lines back -----

  function StripCr(line: string): string {
    if line != "" && line[|line| - 1] == '\r' then line[..|line| - 1] else line
  }

  /** The lines of a text, ended by `\n` or `\r\n`. */
  function Split(text: string): seq<string> {
    var n := IndexOf(text, '\n');
    if n == |text| then [text] else [StripCr(text[..n])] + Split(text[n + 1..])
  }

  function Join(lines: seq<string>): string {
    if lines == [] then "" else if |lines| == 1 then lines[0] else lines[0] + "\n" + Join(lines[1..])
  }

  /** Exactly one line break at the end. */
  function EndOnce(text: string): string {
    if text != "" && text[|text| - 1] == '\n' then EndOnce(text[..|text| - 1]) else text + "\n"
  }

  function FileText(lines: seq<string>): string {
    EndOnce(Join(lines))
  }

  predicate AllOneLine(lines: seq<string>) {
    forall i :: 0 <= i < |lines| ==> OneLine(lines[i])
  }

  lemma {:induction false} SplitIsOneLine(text: string)
    ensures AllOneLine(Split(text)) && Split(text) != []
  {
    NotBeforeIndex(text, '\n');
    var n := IndexOf(text, '\n');
    if n < |text| {
      SplitIsOneLine(text[n + 1..]);
      assert OneLine(StripCr(text[..n]));
    }
  }

  lemma SplitFirst(a: string, rest: string)
    requires OneLine(a)
    ensures Split(a + "\n" + rest) == [StripCr(a)] + Split(rest)
  {
    IndexIs(a, '\n', rest);
    Cut(a, "\n", rest);
  }

  /** The pieces of a text between its line breaks. */
  function Parts(text: string): (parts: seq<string>)
    ensures |parts| > 0
  {
    var n := IndexOf(text, '\n');
    if n == |text| then [text] else [text[..n]] + Parts(text[n + 1..])
  }

  function AllParts(lines: seq<string>): seq<string> {
    if lines == [] then [] else Parts(lines[0]) + AllParts(lines[1..])
  }

  lemma {:induction false} JoinAppend(a: seq<string>, b: seq<string>)
    requires a != [] && b != []
    ensures Join(a + b) == Join(a) + "\n" + Join(b)
  {
    if |a| == 1 {
      assert (a + b)[1..] == b;
    } else {
      JoinAppend(a[1..], b);
      assert (a + b)[0] == a[0] && (a + b)[1..] == a[1..] + b;
      Assoc(a[0] + "\n", Join(a[1..]), "\n");
      Assoc(a[0] + "\n", Join(a[1..]) + "\n", Join(b));
    }
  }

  lemma {:induction false} PartsJoin(text: string)
    ensures Join(Parts(text)) == text && AllOneLine(Parts(text))
  {
    NotBeforeIndex(text, '\n');
    var n := IndexOf(text, '\n');
    if n < |text| {
      PartsJoin(text[n + 1..]);
      var rest := Parts(text[n + 1..]);
      assert ([text[..n]] + rest)[1..] == rest;
      assert text == text[..n] + "\n" + text[n + 1..];
    }
  }

  /** Lines that hold line breaks are written as the lines they fall into. */
  lemma {:induction false} AllPartsJoin(lines: seq<string>)
    ensures Join(AllParts(lines)) == Join(lines) && AllOneLine(AllParts(lines))
    ensures lines != [] ==> AllParts(lines) != []
  {
    if lines != [] {
      PartsJoin(lines[0]);
      AllPartsJoin(lines[1..]);
      if |lines| > 1 {
        JoinAppend(Parts(lines[0]), AllParts(lines[1..]));
      } else {
        assert Parts(lines[0]) + [] == Parts(lines[0]);
      }
    }
  }

  lemma PartsOfOneLine(text: string)
    requires OneLine(text)
    ensures Parts(text) == [text]
  {
  }

  lemma {:induction false} AllPartsOfOneLines(lines: seq<string>)
    requires AllOneLine(lines)
    ensures AllParts(lines) == lines
  {
    if lines != [] {
      PartsOfOneLine(lines[0]);
      AllPartsOfOneLines(lines[1..]);
    }
  }

  /** What stands in front of a text on its first line joins the first piece. */
  lemma PartsBehind(a: string, text: string)
    requires OneLine(a)
    ensures Parts(a + text) == [a + Parts(text)[0]] + Parts(text)[1..]
  {
    var n := IndexOf(text, '\n');
    NotBeforeIndex(text, '\n');
    if n == |text| {
      PartsOfOneLine(a + text);
    } else {
      assert text == text[..n] + "\n" + text[n + 1..];
      assert a + text == (a + text[..n]) + "\n" + text[n + 1..];
      IndexIs(a + text[..n], '\n', text[n + 1..]);
      Cut(a + text[..n], "\n", text[n + 1..]);
      assert ([text[..n]] + Parts(text[n + 1..]))[1..] == Parts(text[n + 1..]);
    }
  }

  lemma {:induction false} FirstPartEscaped(v: string)
    ensures Parts(Escape(v))[0] == Escape(Parts(v)[0])
  {
    if v != "" && v[0] != '\n' {
      var e := if v[0] == '$' then "$$" else [v[0]];
      FirstPartEscaped(v[1..]);
      assert v == [v[0]] + v[1..];
      PartsBehind([v[0]], v[1..]);
      PartsBehind(e, Escape(v[1..]));
      EscapeAppend([v[0]], Parts(v[1..])[0]);
      EscapeOne(v[0]);
    } else if v != "" {
      assert Escape(v)[0] == '\n';
    }
  }

  function Stripped(lines: seq<string>): seq<string> {
    if lines == [] then [] else [StripCr(lines[0])] + Stripped(lines[1..])
  }

  lemma {:induction false} SplitJoined(lines: seq<string>)
    requires lines != [] && AllOneLine(lines)
    ensures Split(Join(lines) + "\n") == Stripped(lines) + [""]
  {
    if |lines| == 1 {
      SplitFirst(lines[0], "");
      assert lines[0] + "\n" + "" == lines[0] + "\n";
      assert Stripped(lines) == [StripCr(lines[0])];
    } else {
      SplitJoined(lines[1..]);
      var rest := Join(lines[1..]) + "\n";
      assert Join(lines) + "\n" == lines[0] + "\n" + rest;
      SplitFirst(lines[0], rest);
      Assoc([StripCr(lines[0])], Stripped(lines[1..]), [""]);
    }
  }

  /** The lines without empty ones at the end, but at least one. */
  function Kept(lines: seq<string>): seq<string> {
    if lines == [] then [""]
    else if |lines| == 1 then lines
    else if lines[|lines| - 1] == "" then Kept(lines[..|lines| - 1])
    else lines
  }

  lemma {:induction false} JoinSnoc(lines: seq<string>, last: string)
    requires lines != []
    ensures Join(lines + [last]) == Join(lines) + "\n" + last
  {
    var all := lines + [last];
    if |lines| == 1 {
      assert all[1..] == [last];
    } else {
      JoinSnoc(lines[1..], last);
      assert all[1..] == lines[1..] + [last];
      Assoc(lines[0] + "\n", Join(lines[1..]), "\n" + last);
      Assoc(Join(lines[1..]), "\n", last);
      Assoc(Join(lines), "\n", last);
    }
  }

  lemma EndOnceOfNothing()
    ensures EndOnce("") == "\n" && "" + "\n" == "\n"
  {
  }

  lemma EndOnceAfterBreak(text: string)
    ensures EndOnce(text + "\n") == EndOnce(text)
  {
    assert (text + "\n")[..|text|] == text;
  }

  lemma {:induction false} LastLineEnds(lines: seq<string>)
    requires AllOneLine(lines) && lines != [] && lines[|lines| - 1] != ""
    ensures Join(lines) != "" && Join(lines)[|Join(lines)| - 1] != '\n'
    ensures EndOnce(Join(lines)) == Join(lines) + "\n"
  {
    if |lines| > 1 {
      LastLineEnds(lines[1..]);
    } else {
      var last := lines[0];
      assert last[|last| - 1] in last;
    }
  }

  lemma {:induction false} FileTextIs(lines: seq<string>)
    requires AllOneLine(lines)
    ensures FileText(lines) == Join(Kept(lines)) + "\n"
    ensures AllOneLine(Kept(lines)) && Kept(lines) != []
  {
    hide EndOnce;
    if lines == [] {
      EndOnceOfNothing();
    } else {
      var n := |lines| - 1;
      var init, last := lines[..n], lines[n];
      assert lines == init + [last];
      if n >= 1 {
        JoinSnoc(init, last);
        if last == "" {
          FileTextIs(init);
          EndOnceAfterBreak(Join(init));
          assert Join(init) + "\n" + "" == Join(init) + "\n";
        }
      } else if last == "" {
        EndOnceOfNothing();
      }
      if last != "" {
        LastLineEnds(lines);
      }
    }
  }

  /** What a written file is split into again. */
  lemma SplitFileText(lines: seq<string>)
    requires AllOneLine(lines)
    ensures Split(FileText(lines)) == Stripped(Kept(lines)) + [""]
  {
    FileTextIs(lines);
    SplitJoined(Kept(lines));
  }

  lemma EntryIgnoresCr(line: string)
    ensures EntryOf(StripCr(line)) == EntryOf(line)
  {
  }

  lemma {:induction false} LookupStripped(lines: seq<string>, key: string)
    ensures Lookup(Stripped(lines), key) == Lookup(lines, key)
  {
    hide EntryOf;
    if lines != [] {
      LookupStripped(lines[1..], key);
      EntryIgnoresCr(lines[0]);
    }
  }

  lemma EmptyLineHoldsNothing(lines: seq<string>, key: string)
    ensures Lookup(lines + [""], key) == Lookup(lines, key) && EntryOf("").None?
  {
    LookupAppend(lines, [""], key);
  }

  lemma {:induction false} LookupKept(lines: seq<string>, key: string)
    ensures Lookup(Kept(lines), key) == Lookup(lines, key)
  {
    if lines == [] {
      EmptyLineHoldsNothing([], key);
      assert [] + [""] == [""];
    } else if |lines| > 1 && lines[|lines| - 1] == "" {
      LookupKept(lines[..|lines| - 1], key);
      EmptyLineHoldsNothing(lines[..|lines| - 1], key);
      assert lines == lines[..|lines| - 1] + [""];
    }
  }

  /** Writing lines and reading the file back gives every key the value the lines gave it. */
  lemma WritingKeepsValues(lines: seq<string>, key: string)
    requires AllOneLine(lines)
    ensures Lookup(Split(FileText(lines)), key) == Lookup(lines, key)
  {
    SplitFileText(lines);
    EmptyLineHoldsNothing(Stripped(Kept(lines)), key);
    LookupStripped(Kept(lines), key);
    LookupKept(lines, key);
  }

  /** The same when the lines hold line breaks themselves: the lines they fall into decide. */
  lemma WritingReadsParts(lines: seq<string>, key: string)
    ensures Lookup(Split(FileText(lines)), key) == Lookup(AllParts(lines), key)
  {
    AllPartsJoin(lines);
    WritingKeepsValues(AllParts(lines), key);
  }

  lemma {:induction false} LookupIsOneLine(lines: seq<string>, key: string)
    requires AllOneLine(lines) && Lookup(lines, key).Some?
    ensures OneLine(Lookup(lines, key).value)
  {
    if Lookup(lines[1..], key).Some? {
      LookupIsOneLine(lines[1..], key);
    } else {
      EntryIsOneLine(lines[0]);
      var v := EntryOf(lines[0]).value.value;
      if '\n' in Unescape(v) {
        UnescapeAddsNothing(v, '\n');
      }
    }
  }

  lemma EntryIsOneLine(line: string)
    requires OneLine(line) && EntryOf(line).Some?
    ensures OneLine(EntryOf(line).value.value)
  {
    hide TrimLeft;
    hide TrimRight;
    TrimAddsNothing(line);
    var t := Trim(line);
    TrimAddsNothing(t[IndexOf(t, '=') + 1..]);
  }

  lemma TrimAddsNothing(s: string)
    ensures forall c :: c in Trim(s) ==> c in s
  {
    TrimRightAddsNothing(s);
    TrimLeftAddsNothing(TrimRight(s));
  }

  lemma {:induction false} TrimLeftAddsNothing(s: string)
    ensures forall c :: c in TrimLeft(s) ==> c in s
  {
    if s != "" && Blank(s[0]) {
      TrimLeftAddsNothing(s[1..]);
    }
  }

  lemma {:induction false} TrimRightAddsNothing(s: string)
    ensures forall c :: c in TrimRight(s) ==> c in s
  {
    if s != "" && Blank(s[|s| - 1]) {
      TrimRightAddsNothing(s[..|s| - 1]);
    }
  }
}
