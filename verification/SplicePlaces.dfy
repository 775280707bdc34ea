/** Where a generated block goes in a configuration file, in every case (backend/src/services/autheliaAccessControl.ts). */
module SplicePlaces {
  import opened Common
  import opened TextSearch
  import opened ConfigSplice

  /** A line under the `access_control:` key: blank, indented or a comment, and ended by a line feed alone. */
  predicate Under(l: string) {
    || l == "\n"
    || (&& |l| > 1 && (l[0] == ' ' || l[0] == '\t' || l[0] == '#') && l[|l| - 1] == '\n'
        && forall i :: 0 <= i < |l| - 1 ==> l[i] != '\n' && l[i] != '\r' && l[i] != '\U{2028}' && l[i] != '\U{2029}')
  }

  /** The text does not go on with such a line. */
  ghost predicate GoesOnOtherwise(t: string) {
    forall l :: l <= t ==> !Under(l)
  }

  lemma {:induction false} DotRunOf(s: string, r: string)
    requires forall i :: 0 <= i < |s| ==> !IsTerminator(s[i])
    ensures DotRun(s + "\n" + r) == |s|
  {
    var t := s + "\n" + r;
    if s != "" {
      assert t[1..] == s[1..] + "\n" + r;
      DotRunOf(s[1..], r);
    }
  }

  lemma SpanLineOf(l: string, r: string)
    requires Under(l)
    ensures SpanLine(l + r) == |l|
  {
    assert (l + r)[0] == l[0];
    if l != "\n" {
      assert l + r == l[..|l| - 1] + "\n" + r;
      DotRunOf(l[..|l| - 1], r);
    }
  }

  lemma NoSpanLine(t: string)
    requires GoesOnOtherwise(t)
    ensures SpanLine(t) == 0
  {
    SpanLineIsUnder(t);
    assert t[..SpanLine(t)] <= t;
  }

  lemma SpanLineIsUnder(t: string)
    ensures SpanLine(t) > 0 ==> Under(t[..SpanLine(t)])
  {
    if SpanLine(t) > 0 && t[0] != '\n' {
      assert forall i :: 0 <= i < DotRun(t) ==> !IsTerminator(t[i]);
    }
  }

  lemma {:induction false} SpanLengthOf(lines: seq<string>, r: string)
    requires (forall l <- lines :: Under(l)) && GoesOnOtherwise(r)
    ensures SpanLength(Flatten(lines) + r) == |Flatten(lines)|
  {
    if lines == [] {
      assert Flatten(lines) + r == r;
      NoSpanLine(r);
    } else {
      var rest := Flatten(lines[1..]) + r;
      assert lines[0] in lines;
      assert Flatten(lines) + r == lines[0] + rest;
      SpanLineOf(lines[0], rest);
      SpanLengthOf(lines[1..], r);
      assert (lines[0] + rest)[|lines[0]|..] == rest;
    }
  }

  /** The key is where it stands for the first time at the start of a line. */
  lemma KeyIsFound(p: string, r: string, key: Pattern)
    requires Aligned(p) && OneLine(key) && Free(p, key) && key.anchored
    ensures Find(p + key.text + r, key) == Some(|p|)
  {
    var u := key.text + r;
    Assoc(p, key.text, r);
    FindConcat(p, u, key);
    assert Hit(u, key, 0);
    FindIsTheFirstHit(u, key, 0);
  }

  lemma UnmarkedSite(t: string, m: Marks)
    requires Free(t, m.Begin())
    ensures MarkedSite(t, m).None?
  {
  }

  lemma KeyText()
    ensures ACCESS_KEY == Pattern("access_control:\n", true) && OneLine(ACCESS_KEY)
  {
  }

  /** Without a block, the rules go in the place of the key and of the lines under it. */
  lemma RulesOverKey(p: string, lines: seq<string>, r: string, m: Marks, block: string)
    requires Aligned(p) && Free(p, Pattern("access_control:\n", true))
    requires (forall l <- lines :: Under(l)) && GoesOnOtherwise(r)
    requires Free(p + "access_control:\n" + (Flatten(lines) + r), m.Begin())
    ensures SpliceAccess(p + "access_control:\n" + (Flatten(lines) + r), m, block) == p + block + r
  {
    hide *;
    KeyText();
    RulesOver(p, "access_control:\n", lines, r, m, block);
  }

  lemma RulesOver(p: string, key: string, lines: seq<string>, r: string, m: Marks, block: string)
    requires ACCESS_KEY == Pattern(key, true) && OneLine(ACCESS_KEY) && Aligned(p) && Free(p, ACCESS_KEY)
    requires (forall l <- lines :: Under(l)) && GoesOnOtherwise(r)
    requires Free(p + key + (Flatten(lines) + r), m.Begin())
    ensures SpliceAccess(p + key + (Flatten(lines) + r), m, block) == p + block + r
  {
    hide *;
    SpanLengthOf(lines, r);
    RulesOverSpan(p, key, Flatten(lines), r, m, block);
  }

  lemma RulesOverSpan(p: string, key: string, span: string, r: string, m: Marks, block: string)
    requires ACCESS_KEY == Pattern(key, true) && OneLine(ACCESS_KEY) && Aligned(p) && Free(p, ACCESS_KEY)
    requires Free(p + key + (span + r), m.Begin()) && SpanLength(span + r) == |span|
    ensures SpliceAccess(p + key + (span + r), m, block) == p + block + r
  {
    hide *;
    UnmarkedSite(p + key + (span + r), m);
    StructuralIs(p, key, span + r);
    FillStretch(p, key, span, r, block);
    AccessAtKey(p + key + (span + r), m, Site(|p|, |p| + |key| + |span|, ""), block);
  }

  lemma AccessAtKey(t: string, m: Marks, s: Site, block: string)
    requires MarkedSite(t, m).None? && StructuralSite(t) == Some(s)
    ensures Within(s, t) && SpliceAccess(t, m, block) == Fill(t, s, block)
  {
  }

  lemma StructuralIs(p: string, key: string, rest: string)
    requires ACCESS_KEY == Pattern(key, true) && OneLine(ACCESS_KEY) && Aligned(p) && Free(p, ACCESS_KEY)
    ensures StructuralSite(p + key + rest) == Some(Site(|p|, |p| + |key| + SpanLength(rest), ""))
  {
    hide *;
    KeyIsFound(p, rest, ACCESS_KEY);
    Cut(p, key, rest);
    StructuralFrom(p + key + rest, |p|, SpanLength(rest));
  }

  lemma StructuralFrom(t: string, i: nat, n: nat)
    requires Find(t, ACCESS_KEY) == Some(i) && SpanLength(t[i + |ACCESS_KEY.text|..]) == n
    ensures StructuralSite(t) == Some(Site(i, i + |ACCESS_KEY.text| + n, ""))
  {
    hide Find;
    hide SpanLength;
  }

  lemma FillStretch(p: string, key: string, span: string, r: string, block: string)
    ensures Within(Site(|p|, |p| + |key| + |span|, ""), p + key + (span + r))
    ensures Fill(p + key + (span + r), Site(|p|, |p| + |key| + |span|, ""), block) == p + block + r
  {
    var t := p + key + (span + r);
    assert t == p + (key + span) + r;
    Cut(p, key + span, r);
    assert p + block + "" == p + block;
  }

  /** Without a block and without a key, they go on top, with an empty line behind them. */
  lemma RulesOnTop(t: string, m: Marks, block: string)
    requires Free(t, m.Begin()) && Free(t, Pattern("access_control:\n", true))
    ensures SpliceAccess(t, m, block) == block + "\n" + t
  {
    assert t[..0] + block == block;
  }

  /** Without a block, the clients go right behind the key of the list. */
  lemma ClientsBehindKey(p: string, r: string, m: Marks, block: string)
    requires Aligned(p) && Free(p, Pattern("    clients:\n", true))
    requires Free(p + "    clients:\n" + r, m.Begin())
    ensures SpliceOidc(p + "    clients:\n" + r, m, block) == p + "    clients:\n" + block + r
  {
    var key := "    clients:\n";
    var t := p + key + r;
    UnmarkedSite(t, m);
    KeyIsFound(p, r, CLIENTS_KEY);
    Cut(p, key, r);
    hide Find;
    hide MarkedSite;
    assert t[..|p| + |key|] == p + key;
    assert p + key + block + "" == p + key + block;
  }

  /** Without a block and without a list, they go nowhere. */
  lemma ClientsNowhere(t: string, m: Marks, block: string)
    requires Free(t, m.Begin()) && Free(t, Pattern("    clients:\n", true))
    ensures SpliceOidc(t, m, block) == t
  {
  }

  /** A block in its place is replaced, by either generator its own. */
  lemma BlockIsReplaced(p: string, was: string, r: string, m: Marks, block: string)
    requires Good(m) && Aligned(p) && Free(p, m.Begin()) && IsBlock(was, m)
    ensures SpliceAccess(p + was + r, m, block) == p + block + r
    ensures SpliceOidc(p + was + r, m, block) == p + block + r
  {
    MarkedSiteOfBlock(p, was, r, m);
    Cut(p, was, r);
    hide MarkedSite;
    assert p + block + "" == p + block;
  }

  // ----- The markers -----

  /** What a file that is already managed is recognised by. */
  lemma MarkersInWords()
    ensures ACCESS.begin == "# >>> managed by the dashboard" + " \U{2014} plan.md \U{A7}151; " + "regenerated on every exposure" + " change, manual edits are lost"
    ensures ACCESS.end == "# <<< managed by the dashboard"
    ensures OIDC.begin ==
            "      " + "# >>> managed by the dashboard" + " \U{2014} plan.md \U{A7}270; " + "OIDC clients for exposed apps"
            + " with `oidcClient` in the " + "registry. Manual edits are lost."
    ensures OIDC.end == "      " + "# <<< managed by the dashboard"
  {
  }

  lemma {:induction false} EndIsFound(body: string, end: string)
    requires Aligned(body) && end != "" && NoBreaks(end) && Free(body, Pattern(end, false))
    ensures Find(body + end, Pattern(end, false)) == Some(|body|)
  {
    FindConcat(body, end, Pattern(end, false));
    assert Hit(end, Pattern(end, false), 0);
    FindIsTheFirstHit(end, Pattern(end, false), 0);
  }

  lemma NoStopWithoutBreak(body: string, m: Marks)
    requires m.strict && Good(m) && Aligned(body) && Free(body, m.End())
    ensures Free(body + m.end, m.Stop())
  {
    FindMeaning(m.end, m.Stop());
    FreeConcat(body, m.end, m.Stop());
    StopNeedsEnd(body, m);
  }

  /**
   * A block that ends the file without a line break: the rules still replace theirs, and the clients do not know theirs
   * again.
   */
  lemma BlockWithoutBreak(p: string, body: string, m: Marks, block: string)
    requires Good(m) && Aligned(p) && Free(p, m.Begin()) && IsBlockOf(m.begin + body + m.end + "\n", body, m)
    ensures var t := p + (m.begin + body + m.end);
            if m.strict then MarkedSite(t, m).None? else SpliceAccess(t, m, block) == p + block
  {
    WithoutBreak(p, body, m, block);
  }

  lemma WithoutBreak(p: string, body: string, m: Marks, block: string)
    requires Good(m) && NoBreaks(m.end) && m.end != "" && m.End() == Pattern(m.end, false)
    requires Aligned(p) && Free(p, m.Begin()) && Aligned(body) && Free(body, m.End())
    ensures var t := p + (m.begin + body + m.end);
            if m.strict then MarkedSite(t, m).None? else SpliceAccess(t, m, block) == p + block
  {
    hide *;
    var t := p + (m.begin + body + m.end);
    assert m.begin <= m.begin + body + m.end;
    BeginOfBlock(p, m.begin + body + m.end, m);
    BehindMark(p, m.begin, body, m.end);
    if m.strict {
      NoStopWithoutBreak(body, m);
      StrictSite(t, m, |p|);
    } else {
      EndIsFound(body, m.end);
      LooseSite(t, m, |p|, |body|);
      FillToEnd(p, m.begin + body + m.end, block);
      AccessAtBlock(t, m, Site(|p|, |t|, ""), block);
    }
  }

  lemma BehindMark(p: string, begin: string, body: string, end: string)
    ensures (p + (begin + body + end))[|p| + |begin|..] == body + end
  {
  }

  lemma LooseSite(t: string, m: Marks, i: nat, n: nat)
    requires !m.strict && Find(t, m.Begin()) == Some(i) && i + |m.begin| <= |t|
    requires Find(t[i + |m.begin|..], m.End()) == Some(n) && i + |m.begin| + n + |m.end| == |t|
    ensures MarkedSite(t, m) == Some(Site(i, |t|, ""))
  {
    hide Find;
  }

  lemma StrictSite(t: string, m: Marks, i: nat)
    requires Find(t, m.Begin()) == Some(i) && i + |m.begin| <= |t| && Free(t[i + |m.begin|..], m.Stop())
    ensures MarkedSite(t, m).None?
  {
    hide Find;
  }

  lemma AccessAtBlock(t: string, m: Marks, s: Site, block: string)
    requires MarkedSite(t, m) == Some(s)
    ensures Within(s, t) && SpliceAccess(t, m, block) == Fill(t, s, block)
  {
  }

  lemma FillToEnd(p: string, b: string, block: string)
    ensures Fill(p + b, Site(|p|, |p + b|, ""), block) == p + block
  {
    assert (p + b)[..|p|] == p && (p + b)[|p + b|..] == "";
  }

  /** The rules' end marker may end the file; the clients' may not. */
  lemma EndOfFile()
    ensures !ACCESS.strict && OIDC.strict
  {
  }
}
