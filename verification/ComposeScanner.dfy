/**
 * The `${KEY}` / `${KEY:-default}` scanner that lists the variables a compose file needs
 * (backend/src/config/services.ts), and the template printer it inverts.
 */
module ComposeScanner {
  import opened Common
  import opened Strings

  // ----- What one reference says, and what the whole file says about one key -----

  datatype Reference = Reference(key: string, default: Option<string>)

  datatype EnvVar = EnvVar(key: string, required: bool, defaultValue: Option<string>)

  /** The keys of `refs`, each at the place of its first occurrence. */
  function FirstKeys(refs: seq<Reference>): seq<string> {
    if refs == [] then []
    else
      var earlier := FirstKeys(refs[..|refs| - 1]);
      var key := refs[|refs| - 1].key;
      if key in earlier then earlier else earlier + [key]
  }

  /** The default of the first occurrence of `key`. */
  function FirstDefault(refs: seq<Reference>, key: string): Option<string> {
    if refs == [] then None
    else if refs[0].key == key then refs[0].default
    else FirstDefault(refs[1..], key)
  }

  /** Some occurrence of `key` carries no default. */
  predicate Undefaulted(refs: seq<Reference>, key: string) {
    exists r | r in refs :: r.key == key && r.default.None?
  }

  function Summary(refs: seq<Reference>, key: string): EnvVar {
    EnvVar(key, Undefaulted(refs, key), FirstDefault(refs, key))
  }

  /** What a list of references amounts to, one entry per key. */
  function Summarise(refs: seq<Reference>): (vars: seq<EnvVar>)
    ensures |vars| == |FirstKeys(refs)|
    ensures forall i :: 0 <= i < |vars| ==> vars[i] == Summary(refs, FirstKeys(refs)[i])
  {
    seq(|FirstKeys(refs)|, i requires 0 <= i < |FirstKeys(refs)| => Summary(refs, FirstKeys(refs)[i]))
  }

  lemma {:induction false} FirstKeysAreTheKeys(refs: seq<Reference>)
    ensures Distinct(FirstKeys(refs))
    ensures forall key :: key in FirstKeys(refs) <==> exists r :: r in refs && r.key == key
  {
    if refs != [] {
      var init, last := refs[..|refs| - 1], refs[|refs| - 1];
      FirstKeysAreTheKeys(init);
      assert refs == init + [last];
      forall key ensures key in FirstKeys(refs) <==> exists r :: r in refs && r.key == key {
        if r :| r in refs && r.key == key {
          assert r in init || r == last;
        }
        if key in FirstKeys(refs) {
          if key in FirstKeys(init) {
            var r :| r in init && r.key == key;
            assert r in refs;
          } else {
            assert key == last.key && last in refs;
          }
        }
      }
    }
  }

  lemma {:induction false} FirstDefaultSnoc(refs: seq<Reference>, r: Reference, key: string)
    ensures FirstDefault(refs + [r], key) ==
            if key in FirstKeys(refs) || r.key != key then FirstDefault(refs, key) else r.default
  {
    FirstKeysAreTheKeys(refs);
    if refs == [] {
      assert refs + [r] == [r];
      assert [r][1..] == [];
    } else {
      assert (refs + [r])[1..] == refs[1..] + [r];
      if refs[0].key == key {
        assert refs[0] in refs;
      } else {
        FirstDefaultSnoc(refs[1..], r, key);
        FirstKeysAreTheKeys(refs[1..]);
        assert refs == [refs[0]] + refs[1..];
        assert key in FirstKeys(refs) <==> key in FirstKeys(refs[1..]);
      }
    }
  }

  /** How one more reference changes the summary of every key. */
  lemma SummarySnoc(refs: seq<Reference>, r: Reference, key: string)
    ensures key != r.key ==> Summary(refs + [r], key) == Summary(refs, key)
    ensures key == r.key && key !in FirstKeys(refs) ==>
              Summary(refs + [r], key) == EnvVar(key, r.default.None?, r.default)
    ensures key == r.key && key in FirstKeys(refs) ==>
              Summary(refs + [r], key) == Summary(refs, key).(required := Undefaulted(refs, key) || r.default.None?)
  {
    FirstDefaultSnoc(refs, r, key);
    FirstKeysAreTheKeys(refs);
    assert forall x :: x in refs + [r] <==> x in refs || x == r;
    if Undefaulted(refs + [r], key) && !Undefaulted(refs, key) {
      var x :| x in refs + [r] && x.key == key && x.default.None?;
      assert x == r;
    }
  }

  // ----- The scanner, read off the text -----

  predicate IsKeyChar(c: char) {
    'A' <= c <= 'Z' || '0' <= c <= '9' || c == '_'
  }

  /** How many key characters `s` begins with. */
  function KeyLength(s: string): (n: nat)
    ensures n <= |s|
  {
    if s == "" || !IsKeyChar(s[0]) then 0 else 1 + KeyLength(s[1..])
  }

  /** The text between `${` and its brace as a reference, if it has the shape of one. */
  function ParseInner(s: string): (r: Option<Reference>)
    ensures r.Some? && r.value.default.Some? ==> |r.value.default.value| + 3 <= |s|
  {
    var n := KeyLength(s);
    if n == 0 then None
    else if n == |s| then Some(Reference(s, None))
    else if n + 2 <= |s| && s[n..n + 2] == ":-" then Some(Reference(s[..n], Some(s[n + 2..])))
    else None
  }

  predicate Opens(s: string) {
    |s| >= 2 && s[0] == '$' && s[1] == '{'
  }

  /** How much of a text a reference body takes up, and whether its brace was found. */
  datatype Extent = Extent(length: nat, closed: bool) {
    function After(skipped: nat): Extent {
      Extent(skipped + length, closed)
    }

    /** The length without the closing brace. */
    function Inner(): int {
      if closed then length - 1 else length
    }
  }

  function Body(s: string, depth: nat): (e: Extent)
    ensures e.length <= |s|
    ensures depth > 0 && e.closed ==> e.length > 0
    decreases |s|
  {
    if depth == 0 then Extent(0, true)
    else if s == "" then Extent(0, false)
    else if Opens(s) then Body(s[2..], depth + 1).After(2)
    else if s[0] == '}' then Body(s[1..], depth - 1).After(1)
    else Body(s[1..], depth).After(1)
  }

  /** Every reference in `s`, in the order the scan meets them: a default's own references follow it. */
  function References(s: string): seq<Reference>
    decreases |s|
  {
    if s == "" then []
    else if !Opens(s) then References(s[1..])
    else
      var tail := s[2..];
      var body := Body(tail, 1);
      Reported(tail[..body.Inner()]) + References(tail[body.length..])
  }

  /** What one reference body contributes. */
  function Reported(inner: string): seq<Reference>
    decreases |inner|, 0
  {
    match ParseInner(inner)
    case None => []
    case Some(r) => [r] + if r.default.Some? then References(r.default.value) else []
  }

  lemma NoReferences()
    ensures References("") == []
  {
  }

  // ----- The scan, step by step -----

  /** The first `${` at or after `from`, or -1. */
  method IndexOfOpen(s: string, from: nat) returns (start: int)
    requires from <= |s|
    ensures start == -1 || from <= start <= |s| - 2
    ensures start == -1 ==> References(s[from..]) == []
    ensures start != -1 ==> Opens(s[start..]) && References(s[from..]) == References(s[start..])
  {
    start := from;
    while start < |s|
      invariant from <= start <= |s|
      invariant References(s[from..]) == References(s[start..])
    {
      if Opens(s[start..]) {
        return;
      }
      assert s[start..][1..] == s[start + 1..];
      start := start + 1;
    }
    assert s[|s|..] == "";
    start := -1;
  }

  /** The insertion-ordered `byKey` map of the scan. */
  class VarTable {
    var order: seq<string>
    var byKey: map<string, EnvVar>
    ghost var seen: seq<Reference>

    ghost predicate Valid()
      reads this
    {
      && order == FirstKeys(seen)
      && byKey.Keys == (set key | key in order)
      && forall key :: key in order ==> byKey[key] == Summary(seen, key)
    }

    constructor ()
      ensures Valid() && seen == []
    {
      order, byKey, seen := [], map[], [];
    }

    method Record(key: string, defaultValue: Option<string>)
      requires Valid()
      modifies this
      ensures Valid() && seen == old(seen) + [Reference(key, defaultValue)]
    {
      ghost var r := Reference(key, defaultValue);
      ghost var before := seen;
      forall k {
        SummarySnoc(before, r, k);
      }
      if key !in byKey {
        order := order + [key];
        byKey := byKey[key := EnvVar(key, defaultValue.None?, defaultValue)];
      } else if defaultValue.None? {
        byKey := byKey[key := byKey[key].(required := true)];
      }
      seen := before + [r];
      assert seen[..|seen| - 1] == before;
    }

    method Scan(content: string)
      requires Valid()
      modifies this
      ensures Valid() && seen == old(seen) + References(content)
      decreases |content|
    {
      hide *;
      var i := 0;
      assert content[0..] == content;
      while i < |content|
        invariant i <= |content| && Valid()
        invariant seen + References(content[i..]) == old(seen) + References(content)
      {
        ghost var before := seen;
        var inner, j := NextBody(content, i);
        if inner.None? {
          return;
        }
        ScanInner(inner.value);
        assert before + (Reported(inner.value) + References(content[j..])) == seen + References(content[j..]);
        i := j;
      }
      assert content[i..] == "";
      NoReferences();
    }

    /** Records what stands between the braces and scans its default in turn. */
    method ScanInner(inner: string)
      requires Valid()
      modifies this
      ensures Valid() && seen == old(seen) + Reported(inner)
      decreases |inner|
    {
      hide ParseInner;
      hide References;
      hide Valid;
      NoReferences();
      var m := ParseInner(inner);
      if m.Some? {
        Record(m.value.key, m.value.default);
        if m.value.default.Some? && m.value.default.value != "" {
          Scan(m.value.default.value);
        }
      }
    }
  }

  lemma NoBody()
    ensures forall s :: Body(s, 0) == Extent(0, true)
    ensures forall depth: nat :: depth > 0 ==> Body("", depth) == Extent(0, false)
  {
  }

  lemma BodyStep(s: string, depth: nat)
    requires s != "" && depth > 0
    ensures Body(s, depth) ==
            if Opens(s) then Body(s[2..], depth + 1).After(2)
            else if s[0] == '}' then Body(s[1..], depth - 1).After(1)
            else Body(s[1..], depth).After(1)
  {
  }

  /** Steps over a reference body by brace depth: the index behind it, and whether its brace was found. */
  method SkipBody(content: string, from: nat) returns (j: nat, closed: bool)
    requires from <= |content|
    ensures from <= j <= |content|
    ensures Body(content[from..], 1) == Extent(j - from, closed)
    ensures closed ==> from < j
  {
    hide Body;
    NoBody();
    var depth := 1;
    j := from;
    while j < |content| && depth > 0
      invariant from <= j <= |content| && depth >= 0
      invariant Body(content[from..], 1) == Body(content[j..], depth).After(j - from)
      invariant depth == 0 ==> j > from
      decreases |content| - j
    {
      BodyStep(content[j..], depth);
      assert content[j..][1..] == content[j + 1..];
      if Opens(content[j..]) {
        assert content[j..][2..] == content[j + 2..];
        depth := depth + 1;
        j := j + 2;
      } else if content[j] == '}' {
        depth := depth - 1;
        j := j + 1;
      } else {
        j := j + 1;
      }
    }
    closed := depth == 0;
  }

  /** Cutting the text at the indices the loops found gives what the specification reads off the suffix. */
  lemma ReferencesAt(content: string, start: nat, j: nat, closed: bool)
    requires start + 2 <= j <= |content| && Opens(content[start..])
    requires closed ==> start + 2 < j
    requires Body(content[start + 2..], 1) == Extent(j - start - 2, closed)
    ensures References(content[start..]) ==
            Reported(content[start + 2..if closed then j - 1 else j]) + References(content[j..])
  {
    var tail := content[start + 2..];
    var body := Body(tail, 1);
    assert content[start..][2..] == tail;
    assert tail[..body.Inner()] == content[start + 2..if closed then j - 1 else j];
    assert tail[body.length..] == content[j..];
  }

  /** The next reference body at or after `from`, and the index behind it; None when there is none left. */
  method NextBody(content: string, from: nat) returns (inner: Option<string>, j: nat)
    requires from <= |content|
    ensures inner.None? ==> References(content[from..]) == []
    ensures inner.Some? ==> from < j <= |content| && |inner.value| < |content|
    ensures inner.Some? ==>
              References(content[from..]) == Reported(inner.value) + References(content[j..])
  {
    var start := IndexOfOpen(content, from);
    if start == -1 {
      return None, from;
    }
    var closed;
    j, closed := SkipBody(content, start + 2);
    inner := Some(content[start + 2..if closed then j - 1 else j]);
    ReferencesAt(content, start, j, closed);
  }

  /** The dashboard's list of the variables a compose file refers to. */
  method ExtractComposeEnvVars(composeContent: string) returns (vars: seq<EnvVar>)
    ensures vars == Summarise(References(composeContent))
  {
    var table := new VarTable();
    table.Scan(composeContent);
    assert table.seen == References(composeContent);
    var order, byKey := table.order, table.byKey;
    vars := seq(|order|, i requires 0 <= i < |order| => byKey[order[i]]);
  }

  // ----- The printer -----

  /** A template: literal text, `${KEY}` and `${KEY:-template}`, one after the other. */
  datatype Template =
    | End
    | Lit(text: string, rest: Template)
    | Ref(key: string, rest: Template)
    | RefOr(key: string, default: Template, rest: Template)

  function Print(t: Template): string {
    match t
    case End => ""
    case Lit(text, rest) => text + Print(rest)
    case Ref(key, rest) => "${" + key + "}" + Print(rest)
    case RefOr(key, default, rest) => "${" + key + ":-" + Print(default) + "}" + Print(rest)
  }

  lemma PrintLit(text: string, u: Template, rest: string)
    ensures Print(Lit(text, u)) + rest == text + (Print(u) + rest)
  {
  }

  lemma PrintRef(key: string, u: Template, rest: string)
    ensures Print(Ref(key, u)) + rest == "${" + (key + ("}" + (Print(u) + rest)))
    ensures |Print(Ref(key, u))| == |key| + 3 + |Print(u)|
  {
  }

  lemma PrintRefOr(key: string, d: Template, u: Template, rest: string)
    ensures Print(RefOr(key, d, u)) + rest == "${" + (key + ":-" + (Print(d) + ("}" + (Print(u) + rest))))
    ensures |Print(RefOr(key, d, u))| == |key| + 5 + |Print(d)| + |Print(u)|
  {
  }

  predicate NoOpen(s: string) {
    forall i :: 0 <= i < |s| - 1 ==> !(s[i] == '$' && s[i + 1] == '{')
  }

  /** A key, by the letters it may have. */
  predicate Name(s: string) {
    s != "" && forall c <- s :: c in "ABCDEFGHIJKLMNOPQRSTUVWXYZ0123456789_"
  }

  /** Literals hold no `${`, are not adjacent, and inside a default hold no `}`. */
  predicate WellFormed(t: Template, nested: bool) {
    match t
    case End => true
    case Lit(text, rest) => NoOpen(text) && !rest.Lit? && (nested ==> '}' !in text) && WellFormed(rest, nested)
    case Ref(key, rest) => Name(key) && WellFormed(rest, nested)
    case RefOr(key, default, rest) => Name(key) && WellFormed(default, true) && WellFormed(rest, nested)
  }

  /** The references of a template in pre-order, each with its printed default. */
  function TemplateReferences(t: Template): seq<Reference> {
    match t
    case End => []
    case Lit(_, rest) => TemplateReferences(rest)
    case Ref(key, rest) => [Reference(key, None)] + TemplateReferences(rest)
    case RefOr(key, default, rest) =>
      [Reference(key, Some(Print(default)))] + TemplateReferences(default) + TemplateReferences(rest)
  }

  // ----- The scanner inverts the printer -----

  lemma KeyCharIff(c: char)
    ensures IsKeyChar(c) <==> c in "ABCDEFGHIJKLMNOPQRSTUVWXYZ0123456789_"
  {
    KeyAlphabet(c);
  }

  lemma NameIff(s: string)
    ensures Name(s) <==> s != "" && forall i :: 0 <= i < |s| ==> IsKeyChar(s[i])
  {
    forall c ensures IsKeyChar(c) <==> c in "ABCDEFGHIJKLMNOPQRSTUVWXYZ0123456789_" {
      KeyCharIff(c);
    }
    hide IsKeyChar;
  }

  lemma {:induction false} KeyLengthStops(s: string)
    ensures forall i :: 0 <= i < KeyLength(s) ==> IsKeyChar(s[i])
    ensures KeyLength(s) < |s| ==> !IsKeyChar(s[KeyLength(s)])
  {
    if s != "" && IsKeyChar(s[0]) {
      KeyLengthStops(s[1..]);
    }
  }

  /** What the key pattern matches: a name of these letters, with a default behind `:-` or with none. */
  lemma ParseInnerIff(s: string, r: Reference)
    ensures ParseInner(s) == Some(r) <==>
              Name(r.key) && s == r.key + if r.default.Some? then ":-" + r.default.value else ""
  {
    hide Name;
    KeyLengthStops(s);
    NameIff(r.key);
    if Name(r.key) && s == r.key + if r.default.Some? then ":-" + r.default.value else "" {
      if r.default.Some? {
        assert s == r.key + ":-" + r.default.value;
        ParseInnerOfRefOr(r.key, r.default.value);
      } else {
        assert s == r.key;
        ParseInnerOfRef(s);
      }
    }
    var n := KeyLength(s);
    if ParseInner(s) == Some(r) && r.default.Some? {
      Pieces(s, n, n + 2);
    }
  }

  lemma {:induction false} KeyLengthOfKey(key: string, rest: string)
    requires forall i :: 0 <= i < |key| ==> IsKeyChar(key[i])
    requires rest == "" || !IsKeyChar(rest[0])
    ensures KeyLength(key + rest) == |key|
  {
    if key == "" {
      assert key + rest == rest;
    } else {
      assert (key + rest)[1..] == key[1..] + rest;
      KeyLengthOfKey(key[1..], rest);
    }
  }

  lemma ParseInnerOfRef(key: string)
    requires Name(key)
    ensures ParseInner(key) == Some(Reference(key, None))
  {
    NameIff(key);
    hide Name;
    KeyLengthOfKey(key, "");
    assert key + "" == key;
  }

  lemma ParseInnerOfRefOr(key: string, default: string)
    requires Name(key)
    ensures ParseInner(key + ":-" + default) == Some(Reference(key, Some(default)))
  {
    NameIff(key);
    hide Name;
    var s := key + ":-" + default;
    assert s == key + (":-" + default);
    KeyLengthOfKey(key, ":-" + default);
    assert s[|key|..|key| + 2] == ":-";
    assert s[..|key|] == key && s[|key| + 2..] == default;
  }

  /** Text with no brace syntax in it is skipped, whatever follows. */
  lemma {:induction false} BodySkipsText(text: string, rest: string, depth: nat)
    requires depth > 0 && NoOpen(text) && '}' !in text
    requires rest == "" || rest[0] != '{'
    ensures Body(text + rest, depth) == Body(rest, depth).After(|text|)
  {
    if text == "" {
      assert text + rest == rest;
    } else {
      var s := text + rest;
      assert s[0] == text[0] && s[1..] == text[1..] + rest;
      assert '}' !in text[1..] && text[0] in text;
      assert NoOpen(text[1..]) by {
        forall i | 0 <= i < |text[1..]| - 1 ensures !(text[1..][i] == '$' && text[1..][i + 1] == '{') {
          assert text[1..][i] == text[i + 1] && text[1..][i + 1] == text[i + 2];
        }
      }
      assert !Opens(s) by {
        if |text| == 1 && |s| >= 2 { assert s[1] == rest[0]; }
      }
      BodySkipsText(text[1..], rest, depth);
    }
  }

  lemma KeyHasNoBraces(key: string)
    requires forall i :: 0 <= i < |key| ==> IsKeyChar(key[i])
    ensures NoOpen(key) && NoOpen(key + ":-") && '}' !in key && '}' !in key + ":-"
  {
    var s := key + ":-";
    assert forall i :: 0 <= i < |s| ==> s[i] != '$' && s[i] != '}';
  }

  /** A printed template never begins with a brace unless it is a literal. */
  lemma PrintStart(t: Template, rest: string)
    requires !t.Lit?
    requires rest == "" || rest[0] != '{'
    ensures Print(t) + rest == "" || (Print(t) + rest)[0] != '{'
  {
  }

  /** Braces in a printed default balance, so the scan of a body passes over all of it. */
  lemma {:induction false} BodySkipsTemplate(t: Template, rest: string, depth: nat)
    requires depth > 0 && WellFormed(t, true)
    requires rest == "" || rest[0] != '{'
    ensures Body(Print(t) + rest, depth) == Body(rest, depth).After(|Print(t)|)
    decreases t
  {
    hide Body;
    match t
    case End =>
      assert Print(t) + rest == rest;
    case Lit(text, u) =>
      PrintStart(u, rest);
      BodySkipsTemplate(u, rest, depth);
      BodySkipsText(text, Print(u) + rest, depth);
      PrintLit(text, u, rest);
    case Ref(key, u) =>
      BodySkipsTemplate(u, rest, depth);
      BodySkipsReference(key, Print(u) + rest, depth);
      PrintRef(key, u, rest);
    case RefOr(key, d, u) =>
      BodySkipsTemplate(u, rest, depth);
      BodySkipsTemplate(d, "}" + (Print(u) + rest), depth + 1);
      BodySkipsDefaulted(key, Print(d), Print(u) + rest, depth);
      PrintRefOr(key, d, u, rest);
  }

  lemma BodyOfBrace(rest: string, depth: nat)
    ensures Body("}" + rest, depth + 1) == Body(rest, depth).After(1)
  {
    var s := "}" + rest;
    assert s[1..] == rest && !Opens(s);
  }

  /** `KEY:-` is skipped even when the default that follows begins with a brace. */
  lemma BodySkipsHead(key: string, rest: string, depth: nat)
    requires depth > 0 && Name(key)
    ensures Body(key + ":-" + rest, depth) == Body(rest, depth).After(|key| + 2)
  {
    NameIff(key);
    KeyHasNoBraces(key);
    hide Name;
    assert key + ":-" + rest == key + (":-" + rest);
    BodySkipsText(key, ":-" + rest, depth);
    var s := ":-" + rest;
    assert s[1..] == "-" + rest && s[1..][1..] == rest;
  }

  lemma BodySkipsReference(key: string, rest: string, depth: nat)
    requires depth > 0 && Name(key)
    ensures Body("${" + (key + ("}" + rest)), depth) == Body(rest, depth).After(|key| + 3)
  {
    NameIff(key);
    KeyHasNoBraces(key);
    hide Name;
    var s := "${" + (key + ("}" + rest));
    assert Opens(s) && s[2..] == key + ("}" + rest);
    BodySkipsText(key, "}" + rest, depth + 1);
    BodyOfBrace(rest, depth);
  }

  lemma BodySkipsDefaulted(key: string, default: string, rest: string, depth: nat)
    requires depth > 0 && Name(key)
    requires Body(default + ("}" + rest), depth + 1) == Body("}" + rest, depth + 1).After(|default|)
    ensures Body("${" + (key + ":-" + (default + ("}" + rest))), depth) ==
            Body(rest, depth).After(|key| + |default| + 5)
  {
    var tail := key + ":-" + (default + ("}" + rest));
    var s := "${" + tail;
    assert Opens(s) && s[2..] == tail;
    BodySkipsHead(key, default + ("}" + rest), depth + 1);
    BodyOfBrace(rest, depth);
  }

  lemma {:induction false} ReferencesSkipText(text: string, rest: string)
    requires NoOpen(text)
    requires rest == "" || rest[0] != '{'
    ensures References(text + rest) == References(rest)
  {
    if text == "" {
      assert text + rest == rest;
    } else {
      var s := text + rest;
      assert s[1..] == text[1..] + rest;
      assert NoOpen(text[1..]) by {
        forall i | 0 <= i < |text[1..]| - 1 ensures !(text[1..][i] == '$' && text[1..][i + 1] == '{') {
          assert text[1..][i] == text[i + 1] && text[1..][i + 1] == text[i + 2];
        }
      }
      assert !Opens(s) by {
        if |text| == 1 && |s| >= 2 { assert s[1] == rest[0]; }
      }
      ReferencesSkipText(text[1..], rest);
    }
  }

  /** One printed reference, whatever its body, then the rest of the text. */
  lemma ReferencesOfOne(inner: string, rest: string)
    requires Body(inner + "}" + rest, 1) == Extent(|inner| + 1, true)
    ensures References("${" + inner + "}" + rest) == Reported(inner) + References(rest)
  {
    var s := "${" + inner + "}" + rest;
    var tail := inner + "}" + rest;
    assert Opens(s) && s[2..] == tail;
    assert tail[..|inner|] == inner && tail[|inner| + 1..] == rest;
  }

  lemma {:induction false} ReferencesOfPrint(t: Template, nested: bool, rest: string)
    requires WellFormed(t, nested)
    requires rest == "" || rest[0] != '{'
    ensures References(Print(t) + rest) == TemplateReferences(t) + References(rest)
    decreases t
  {
    match t
    case End =>
      assert Print(t) + rest == rest;
    case Lit(text, u) =>
      PrintStart(u, rest);
      PrintLit(text, u, rest);
      ReferencesSkipText(text, Print(u) + rest);
      ReferencesOfPrint(u, nested, rest);
    case Ref(key, u) =>
      ReferencesOfPrint(u, nested, rest);
      ReferencesOfRef(key, u, rest);
    case RefOr(key, d, u) =>
      ReferencesOfPrint(u, nested, rest);
      ReferencesOfPrint(d, true, "");
      assert Print(d) + "" == Print(d);
      ReferencesOfRefOr(key, d, u, rest);
  }

  lemma BodyOfRef(key: string, after: string)
    requires Name(key)
    ensures Body(key + "}" + after, 1) == Extent(|key| + 1, true)
  {
    NameIff(key);
    KeyHasNoBraces(key);
    hide Name;
    assert key + "}" + after == key + ("}" + after);
    BodySkipsText(key, "}" + after, 1);
    BodyOfBrace(after, 0);
  }

  lemma BodyOfRefOr(key: string, d: Template, after: string)
    requires Name(key) && WellFormed(d, true)
    ensures Body(key + ":-" + Print(d) + "}" + after, 1) == Extent(|key| + |Print(d)| + 3, true)
  {
    assert key + ":-" + Print(d) + "}" + after == key + ":-" + (Print(d) + ("}" + after));
    BodySkipsHead(key, Print(d) + ("}" + after), 1);
    BodySkipsTemplate(d, "}" + after, 1);
    BodyOfBrace(after, 0);
  }

  lemma ReferencesOfRef(key: string, u: Template, rest: string)
    requires Name(key)
    requires References(Print(u) + rest) == TemplateReferences(u) + References(rest)
    ensures References(Print(Ref(key, u)) + rest) == TemplateReferences(Ref(key, u)) + References(rest)
  {
    hide Print;
    hide References;
    hide Body;
    hide ParseInner;
    var after := Print(u) + rest;
    assert Print(Ref(key, u)) + rest == "${" + key + "}" + after by {
      PrintRef(key, u, rest);
    }
    BodyOfRef(key, after);
    ReferencesOfOne(key, after);
    assert Reported(key) == [Reference(key, None)] by {
      ParseInnerOfRef(key);
    }
  }

  lemma ReferencesOfRefOr(key: string, d: Template, u: Template, rest: string)
    requires Name(key) && WellFormed(d, true)
    requires References(Print(u) + rest) == TemplateReferences(u) + References(rest)
    requires References(Print(d)) == TemplateReferences(d)
    ensures References(Print(RefOr(key, d, u)) + rest) == TemplateReferences(RefOr(key, d, u)) + References(rest)
  {
    hide Print;
    hide References;
    hide Body;
    hide ParseInner;
    var after := Print(u) + rest;
    var inner := key + ":-" + Print(d);
    assert Print(RefOr(key, d, u)) + rest == "${" + inner + "}" + after by {
      PrintRefOr(key, d, u, rest);
    }
    BodyOfRefOr(key, d, after);
    ReferencesOfOne(inner, after);
    assert Reported(inner) == [Reference(key, Some(Print(d)))] + TemplateReferences(d) by {
      ParseInnerOfRefOr(key, Print(d));
    }
  }

  /**
   * Scanning a printed template yields exactly the template's keys in pre-order of first occurrence,
   * required iff some occurrence has no default, with the first occurrence's printed default.
   */
  lemma ScanInvertsPrint(t: Template)
    requires WellFormed(t, false)
    ensures References(Print(t)) == TemplateReferences(t)
    ensures Summarise(References(Print(t))) == Summarise(TemplateReferences(t))
  {
    ReferencesOfPrint(t, false, "");
    assert Print(t) + "" == Print(t);
    assert References("") == [];
  }

  /** On any text at all: one entry per key that is referenced, and none twice. */
  lemma ScanNeverRepeatsAKey(content: string)
    ensures var vars := Summarise(References(content));
            && (forall i, j :: 0 <= i < j < |vars| ==> vars[i].key != vars[j].key)
            && (forall v :: v in vars ==> exists r :: r in References(content) && r.key == v.key)
            && (forall r :: r in References(content) ==> exists v :: v in vars && v.key == r.key)
  {
    var refs := References(content);
    var keys := FirstKeys(refs);
    var vars := Summarise(refs);
    FirstKeysAreTheKeys(refs);
    forall v | v in vars ensures exists r :: r in refs && r.key == v.key {
      var i :| 0 <= i < |vars| && vars[i] == v;
      assert keys[i] in keys;
    }
    forall r | r in refs ensures exists v :: v in vars && v.key == r.key {
      assert r.key in keys;
      var i :| 0 <= i < |keys| && keys[i] == r.key;
      assert vars[i] in vars;
    }
  }
}
