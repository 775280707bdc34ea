/**
 * The access-control splice and the OIDC splice commute, although one end marker is a substring of the
 * other: each finds its own place whether or not the other has already run. Replacing whole lines elsewhere only
 * shifts a site, and the two stretches stay separate.
 */
module SpliceCommute {
  import opened Common
  import opened TextSearch
  import opened ConfigSplice

  /** Whole lines in which neither a begin marker nor the fallback key of the other splice can be found. */
  predicate Inert(w: string, m: Marks, key: Pattern) {
    Aligned(w) && Free(w, m.Begin()) && Free(w, key)
  }

  /** Where the text that the OIDC splice depends on begins: the old block, or the `clients:` line. */
  function Foot(t: string, m: Marks): (x: nat)
    requires OidcSite(t, m).Some?
    ensures x <= OidcSite(t, m).value.from
  {
    if MarkedSite(t, m).Some? then OidcSite(t, m).value.from else Find(t, CLIENTS_KEY).value
  }

  /** The two splices work on separate stretches of the text. */
  predicate Apart(t: string, ma: Marks, mo: Marks) {
    OidcSite(t, mo).Some? ==>
      AccessSite(t, ma).to <= Foot(t, mo) || OidcSite(t, mo).value.to <= AccessSite(t, ma).from
  }

  /** A site in a text whose stretch from `lo` to `hi` has become `n` characters long. */
  function Moved(s: Site, lo: nat, hi: nat, n: nat): Site
    requires lo <= hi && (hi <= s.from || s.to <= lo) && s.from <= s.to
  {
    if s.to <= lo then s else Site(s.from - hi + lo + n, s.to - hi + lo + n, s.gap)
  }

  // ----- Replacing whole lines leaves other sites where they are -----

  lemma FindAcross(a: string, x: string, b: string, p: Pattern)
    requires Aligned(a) && Aligned(x) && OneLine(p)
    ensures Find(a + x + b, p) ==
            if !Free(a, p) then Find(a, p)
            else if !Free(x, p) then Shift(Find(x, p), |a|)
            else Shift(Find(b, p), |a| + |x|)
  {
    AlignedConcat(a, x);
    FindConcat(a + x, b, p);
    FindConcat(a, x, p);
  }

  /** A block in place is the marked site, however the text around it came about. */
  lemma MarkedSiteAt(t: string, from: nat, to: nat, m: Marks)
    requires Good(m) && from <= to <= |t|
    requires Aligned(t[..from]) && Free(t[..from], m.Begin()) && IsBlock(t[from..to], m)
    ensures MarkedSite(t, m) == Some(Site(from, to, ""))
    ensures WellPlaced(t, m)
  {
    hide Find;
    hide MarkedSite;
    hide IsBlock;
    hide Good;
    Pieces(t, from, to);
    MarkedSiteOfBlock(t[..from], t[from..to], t[to..], m);
  }

  /** Slices in front of a replaced stretch. */
  lemma SlicesInHead(a: string, x: string, x': string, b: string, from: nat, to: nat)
    requires from <= to <= |a|
    ensures (a + x' + b)[..from] == (a + x + b)[..from]
    ensures (a + x' + b)[from..to] == (a + x + b)[from..to]
  {
  }

  /** Slices behind a replaced stretch. */
  lemma SlicesInTail(a: string, x: string, x': string, b: string, from: nat, to: nat)
    requires |a| + |x| <= from <= to <= |a + x + b|
    ensures var q := b[..from - |a| - |x|];
            (a + x + b)[..from] == a + x + q && (a + x' + b)[..from - |x| + |x'|] == a + x' + q
    ensures (a + x' + b)[from - |x| + |x'|..to - |x| + |x'|] == (a + x + b)[from..to]
  {
  }

  lemma FreeSwap(a: string, x: string, x': string, q: string, p: Pattern)
    requires Aligned(a) && Aligned(x) && Aligned(x') && Free(x', p) && OneLine(p)
    requires Aligned(a + x + q) && Free(a + x + q, p)
    ensures Aligned(a + x' + q) && Free(a + x' + q, p)
  {
    FindAcross(a, x, q, p);
    FindAcross(a, x', q, p);
    assert Aligned(q) by {
      if q != "" {
        assert (a + x + q)[|a + x + q| - 1] == q[|q| - 1];
      }
    }
    AlignedConcat(a, x');
    AlignedConcat(a + x', q);
  }

  /** Where a placed block is: the first begin marker, in whichever whole lines it stands. */
  lemma MarkedStays(a: string, x: string, x': string, b: string, m: Marks)
    requires Good(m) && Aligned(a) && Aligned(x) && Aligned(x') && Free(x', m.Begin())
    requires WellPlaced(a + x + b, m) && !Free(a + x + b, m.Begin())
    requires var s := MarkedSite(a + x + b, m);
             s.Some? ==> s.value.to <= |a| || |a| + |x| <= s.value.from
    ensures var s := MarkedSite(a + x + b, m);
            s.Some? && MarkedSite(a + x' + b, m) == Some(Moved(s.value, |a|, |a| + |x|, |x'|))
    ensures WellPlaced(a + x' + b, m)
  {
    hide MarkedSite;
    hide Find;
    PlacedSite(a + x + b, m);
    var s := MarkedSite(a + x + b, m).value;
    if s.to <= |a| {
      SlicesInHead(a, x, x', b, s.from, s.to);
      MarkedSiteAt(a + x' + b, s.from, s.to, m);
    } else {
      MarkedStaysInTail(a, x, x', b, s.from, s.to, m);
    }
  }

  lemma MarkedStaysInTail(a: string, x: string, x': string, b: string, from: nat, to: nat, m: Marks)
    requires Good(m) && Aligned(a) && Aligned(x) && Aligned(x') && Free(x', m.Begin())
    requires |a| + |x| <= from <= to <= |a + x + b|
    requires Aligned((a + x + b)[..from]) && Free((a + x + b)[..from], m.Begin()) && IsBlock((a + x + b)[from..to], m)
    ensures MarkedSite(a + x' + b, m) == Some(Site(from - |x| + |x'|, to - |x| + |x'|, ""))
    ensures WellPlaced(a + x' + b, m)
  {
    hide Find;
    hide MarkedSite;
    hide WellPlaced;
    hide IsBlock;
    SlicesInTail(a, x, x', b, from, to);
    FreeSwap(a, x, x', b[..from - |a| - |x|], m.Begin());
    MarkedSiteAt(a + x' + b, from - |x| + |x'|, to - |x| + |x'|, m);
  }

  lemma UnmarkedStays(a: string, x: string, x': string, b: string, m: Marks)
    requires Good(m) && Aligned(a) && Aligned(x) && Aligned(x') && Free(x', m.Begin())
    requires Free(a + x + b, m.Begin())
    ensures MarkedSite(a + x + b, m).None? && MarkedSite(a + x' + b, m).None?
    ensures WellPlaced(a + x' + b, m)
  {
    FindAcross(a, x, b, m.Begin());
    FindAcross(a, x', b, m.Begin());
  }

  lemma OidcSiteStays(a: string, x: string, x': string, b: string, m: Marks)
    requires Good(m) && Aligned(a) && Aligned(x) && Inert(x', m, CLIENTS_KEY)
    requires WellPlaced(a + x + b, m)
    requires var t := a + x + b;
             OidcSite(t, m).Some? ==> OidcSite(t, m).value.to <= |a| || |a| + |x| <= Foot(t, m)
    ensures OidcSite(a + x' + b, m) ==
            match OidcSite(a + x + b, m)
            case None => None
            case Some(s) => Some(Moved(s, |a|, |a| + |x|, |x'|))
    ensures MarkedSite(a + x' + b, m).Some? <==> MarkedSite(a + x + b, m).Some?
    ensures WellPlaced(a + x' + b, m)
  {
    hide MarkedSite;
    hide Find;
    hide WellPlaced;
    var t := a + x + b;
    if Free(t, m.Begin()) {
      UnmarkedStays(a, x, x', b, m);
      FindAcross(a, x, b, CLIENTS_KEY);
      FindAcross(a, x', b, CLIENTS_KEY);
    } else {
      PlacedSite(t, m);
      MarkedStays(a, x, x', b, m);
    }
  }

  // ----- The structural span -----

  lemma DotRunLocal(u: string, v: string)
    requires Aligned(u) && u != ""
    ensures DotRun(u + v) == DotRun(u) < |u|
  {
    if !IsTerminator(u[0]) {
      assert (u + v)[1..] == u[1..] + v;
      DotRunLocal(u[1..], v);
    }
  }

  lemma SpanLineLocal(u: string, v: string)
    requires Aligned(u) && u != ""
    ensures SpanLine(u + v) == SpanLine(u)
  {
    DotRunLocal(u, v);
  }

  /** A span that ends before the whole lines `u` do is the same whatever follows them. */
  lemma {:induction false} SpanLocal(u: string, v: string, w: string)
    requires Aligned(u) && SpanLength(u + v) < |u|
    ensures SpanLength(u + w) == SpanLength(u + v)
    decreases |u|
  {
    SpanLineLocal(u, v);
    SpanLineLocal(u, w);
    var n := SpanLine(u);
    if n > 0 {
      assert (u + v)[n..] == u[n..] + v && (u + w)[n..] == u[n..] + w;
      SpanLocal(u[n..], v, w);
    }
  }

  /** The line behind a span is not blank, indented or a comment. */
  lemma {:induction false} SpanIsMaximal(s: string)
    ensures SpanLine(s[SpanLength(s)..]) == 0
    decreases |s|
  {
    var n := SpanLine(s);
    if n > 0 {
      SpanIsMaximal(s[n..]);
      assert s[n..][SpanLength(s[n..])..] == s[SpanLength(s)..];
    } else {
      assert s[0..] == s;
    }
  }

  lemma {:induction false} DotRunOfLine(line: string, rest: string)
    requires forall i :: 0 <= i < |line| ==> !IsTerminator(line[i])
    requires rest != "" && IsTerminator(rest[0])
    ensures DotRun(line + rest) == |line|
  {
    if line == "" {
      assert line + rest == rest;
    } else {
      assert (line + rest)[1..] == line[1..] + rest;
      DotRunOfLine(line[1..], rest);
    }
  }

  /** An indented line is part of a span. */
  lemma IndentedLineSpans(line: string, rest: string)
    requires line != "" && line[0] == ' ' && forall i :: 0 <= i < |line| ==> !IsTerminator(line[i])
    requires rest != "" && rest[0] == '\n'
    ensures SpanLine(line + rest) > 0
  {
    DotRunOfLine(line, rest);
  }

  /** A key line and its span in front of the replaced stretch stay where they are. */
  lemma StructuralStaysInHead(a: string, x: string, x': string, b: string)
    requires Aligned(a) && Aligned(x) && Aligned(x') && Free(x', ACCESS_KEY)
    requires StructuralSite(a + x + b).Some? && StructuralSite(a + x + b).value.to < |a|
    ensures StructuralSite(a + x' + b) == StructuralSite(a + x + b)
  {
    hide Find;
    hide SpanLength;
    StructuralSiteOf(a + x + b);
    StructuralSiteOf(a + x' + b);
    hide StructuralSite;
    var r := Find(a + x + b, ACCESS_KEY).value;
    FindStaysInHead(a, x, x', b, r);
    SpanInHead(a, x, x', b, r + |ACCESS_KEY.text|);
  }

  lemma FindStaysInHead(a: string, x: string, x': string, b: string, r: nat)
    requires Aligned(a) && Aligned(x) && Aligned(x')
    requires Find(a + x + b, ACCESS_KEY) == Some(r) && r < |a|
    ensures Find(a + x' + b, ACCESS_KEY) == Some(r)
  {
    hide Find;
    FindAcross(a, x, b, ACCESS_KEY);
    FindAcross(a, x', b, ACCESS_KEY);
  }

  /** A key line behind the replaced stretch moves with the text it stands in. */
  lemma StructuralStaysInTail(a: string, x: string, x': string, b: string)
    requires Aligned(a) && Aligned(x) && Aligned(x') && Free(x', ACCESS_KEY)
    requires StructuralSite(a + x + b).Some? && |a| + |x| <= StructuralSite(a + x + b).value.from
    ensures StructuralSite(a + x' + b) == Some(Moved(StructuralSite(a + x + b).value, |a|, |a| + |x|, |x'|))
  {
    hide Find;
    hide SpanLength;
    StructuralSiteOf(a + x + b);
    StructuralSiteOf(a + x' + b);
    hide StructuralSite;
    var r := Find(a + x + b, ACCESS_KEY).value;
    FindStaysInTail(a, x, x', b, r);
    SpanInTail(a, x, x', b, r + |ACCESS_KEY.text|);
  }

  lemma FindStaysInTail(a: string, x: string, x': string, b: string, r: nat)
    requires Aligned(a) && Aligned(x) && Aligned(x') && Free(x', ACCESS_KEY)
    requires Find(a + x + b, ACCESS_KEY) == Some(r) && |a| + |x| <= r
    ensures Find(a + x' + b, ACCESS_KEY) == Some(r - |x| + |x'|)
  {
    hide Find;
    FindAcross(a, x, b, ACCESS_KEY);
    FindAcross(a, x', b, ACCESS_KEY);
  }

  lemma StructuralStays(a: string, x: string, x': string, b: string)
    requires Aligned(a) && Aligned(x) && Aligned(x') && Free(x', ACCESS_KEY)
    requires var s := StructuralSite(a + x + b);
             s.Some? ==> s.value.to < |a| || |a| + |x| <= s.value.from
    ensures StructuralSite(a + x' + b) ==
            match StructuralSite(a + x + b)
            case None => None
            case Some(s) => Some(Moved(s, |a|, |a| + |x|, |x'|))
  {
    hide Find;
    hide Aligned;
    if StructuralSite(a + x + b).None? {
      FindAcross(a, x, b, ACCESS_KEY);
      FindAcross(a, x', b, ACCESS_KEY);
    } else {
      hide StructuralSite;
      if StructuralSite(a + x + b).value.to < |a| {
        StructuralStaysInHead(a, x, x', b);
      } else {
        StructuralStaysInTail(a, x, x', b);
      }
    }
  }

  lemma StructuralSiteOf(t: string)
    ensures StructuralSite(t) ==
            match Find(t, ACCESS_KEY)
            case None => None
            case Some(i) =>
              var body := i + |ACCESS_KEY.text|;
              Some(Site(i, body + SpanLength(t[body..]), ""))
  {
  }

  lemma SpanInTail(a: string, x: string, x': string, b: string, body: nat)
    requires |a| + |x| <= body <= |a + x + b|
    ensures (a + x' + b)[body - |x| + |x'|..] == (a + x + b)[body..]
  {
  }

  lemma SpanInHead(a: string, x: string, x': string, b: string, body: nat)
    requires Aligned(a) && body <= |a + x + b| && body + SpanLength((a + x + b)[body..]) < |a|
    ensures SpanLength((a + x' + b)[body..]) == SpanLength((a + x + b)[body..])
  {
    var u := a[body..];
    assert (a + x + b)[body..] == u + (x + b) && (a + x' + b)[body..] == u + (x' + b);
    SpanLocal(u, x + b, x' + b);
  }

  lemma AccessSiteStays(a: string, x: string, x': string, b: string, m: Marks)
    requires Good(m) && Aligned(a) && Aligned(x) && Inert(x', m, ACCESS_KEY)
    requires WellPlaced(a + x + b, m)
    requires var t := a + x + b;
             var s := AccessSite(t, m);
             if MarkedSite(t, m).Some? then s.to <= |a| || |a| + |x| <= s.from
             else StructuralSite(t).Some? ==> s.to < |a| || |a| + |x| <= s.from
    ensures var t := a + x + b;
            var s := AccessSite(t, m);
            AccessSite(a + x' + b, m) ==
            if MarkedSite(t, m).Some? || StructuralSite(t).Some? then Moved(s, |a|, |a| + |x|, |x'|) else s
    ensures WellPlaced(a + x' + b, m)
  {
    hide WellPlaced;
    var t := a + x + b;
    if Free(t, m.Begin()) {
      UnmarkedStays(a, x, x', b, m);
      StructuralStays(a, x, x', b);
    } else {
      PlacedSite(t, m);
      MarkedStays(a, x, x', b, m);
    }
  }

  // ----- The theorem -----

  /** Two fills of separate stretches can be done in either order. */
  lemma FillsCommute(t: string, s1: Site, b1: string, s2: Site, b2: string)
    requires Within(s1, t) && Within(s2, t) && s1.to <= s2.from && s2.gap == ""
    requires s1.from < s2.to
    ensures var n := |b1| + |s1.gap|;
            var t1 := Fill(t, s1, b1);
            var t2 := Fill(t, s2, b2);
            Within(Moved(s2, s1.from, s1.to, n), t1) && Within(s1, t2) &&
            Fill(t1, Moved(s2, s1.from, s1.to, n), b2) == Fill(t2, s1, b1)
  {
    var p, q, r := t[..s1.from], t[s1.to..s2.from], t[s2.to..];
    var x := b1 + s1.gap;
    FillFirst(t, s1, b1, s2);
    FillSecond(t, s1, s2, b2);
    CutTail(p, x, q, t[s2.from..s2.to] + r);
    CutTail(p + x, q, t[s2.from..s2.to], r);
    Assoc(p + x, q, b2);
    Assoc(p + x, q + b2, r);
    Assoc(p, b1, s1.gap);
    assert p + x + q + b2 + "" == p + x + q + b2;
  }

  lemma FillFirst(t: string, s1: Site, b1: string, s2: Site)
    requires Within(s1, t) && Within(s2, t) && s1.to <= s2.from
    ensures Fill(t, s1, b1) ==
            t[..s1.from] + (b1 + s1.gap) + (t[s1.to..s2.from] + (t[s2.from..s2.to] + t[s2.to..]))
  {
    Assoc(t[..s1.from], b1, s1.gap);
    assert t[s1.to..] == t[s1.to..s2.from] + (t[s2.from..s2.to] + t[s2.to..]);
  }

  lemma FillSecond(t: string, s1: Site, s2: Site, b2: string)
    requires Within(s1, t) && Within(s2, t) && s1.to <= s2.from && s2.gap == ""
    ensures var t2 := Fill(t, s2, b2);
            s1.to <= |t2| && t2[..s1.from] == t[..s1.from] &&
            t2[s1.to..] == t[s1.to..s2.from] + b2 + t[s2.to..]
  {
    assert t[..s2.from] + b2 + "" == t[..s2.from] + b2;
  }

  lemma CutTail(p: string, x: string, q: string, r: string)
    ensures p + x + (q + r) == p + x + q + r
    ensures (p + x + q + r)[..|p| + |x| + |q|] == p + x + q
    ensures (p + x + q + r)[|p| + |x| + |q|..] == r
  {
  }

  lemma StructuralHole(t: string)
    requires StructuralSite(t).Some?
    ensures var s := StructuralSite(t).value; Aligned(t[..s.from]) && Aligned(t[s.from..s.to])
  {
    hide SpanLength;
    hide Find;
    FindMeaning(t, ACCESS_KEY);
    var s := StructuralSite(t).value;
    var body := s.from + |ACCESS_KEY.text|;
    assert t[body - 1] == t[s.from..body][|ACCESS_KEY.text| - 1];
    assert s.to > body ==> t[body..][s.to - body - 1] == '\n';
  }

  /** Text in front of the site and the text that is replaced are whole lines. */
  lemma AccessHole(t: string, m: Marks)
    requires Good(m) && WellPlaced(t, m)
    ensures var s := AccessSite(t, m);
            Aligned(t[..s.from]) && Aligned(t[s.from..s.to]) && t == t[..s.from] + t[s.from..s.to] + t[s.to..]
  {
    hide MarkedSite;
    hide StructuralSite;
    hide Find;
    hide WellPlaced;
    var s := AccessSite(t, m);
    Pieces(t, s.from, s.to);
    if !Free(t, m.Begin()) {
      PlacedSite(t, m);
      BlockIsAligned(t[s.from..s.to], m);
    } else {
      UnmarkedSite(t, m);
      if StructuralSite(t).Some? {
        StructuralHole(t);
      }
    }
  }

  lemma UnmarkedSite(t: string, m: Marks)
    requires Free(t, m.Begin())
    ensures MarkedSite(t, m).None?
  {
  }

  lemma OidcHole(t: string, m: Marks)
    requires Good(m) && WellPlaced(t, m) && OidcSite(t, m).Some?
    ensures var s := OidcSite(t, m).value;
            && Aligned(t[..s.from]) && Aligned(t[s.from..s.to]) && s.gap == ""
            && t == t[..s.from] + t[s.from..s.to] + t[s.to..]
            && Foot(t, m) < s.to
            && (Free(t, m.Begin()) ==> Foot(t, m) < s.from)
  {
    hide MarkedSite;
    hide Find;
    hide WellPlaced;
    var s := OidcSite(t, m).value;
    OidcSiteIsClean(t, m);
    Pieces(t, s.from, s.to);
    if !Free(t, m.Begin()) {
      PlacedSite(t, m);
      BlockIsAligned(t[s.from..s.to], m);
    } else {
      UnmarkedSite(t, m);
    }
  }

  lemma BlockSpans(block: string, r: string, m: Marks)
    requires Good(m) && m.begin[0] == ' ' && IsBlock(block, m)
    ensures SpanLine(block + r) > 0
  {
    hide SpanLine;
    hide Free;
    var lines :| IsBlockOf(block, lines, m);
    var rest := lines + m.end + "\n" + r;
    assert block + r == m.begin + rest;
    IndentedLineSpans(m.begin, rest);
  }

  lemma BlockSiteSpans(t: string, m: Marks)
    requires Good(m) && m.begin[0] == ' ' && WellPlaced(t, m) && !Free(t, m.Begin())
    ensures MarkedSite(t, m).Some? && SpanLine(t[MarkedSite(t, m).value.from..]) > 0
  {
    hide MarkedSite;
    hide SpanLine;
    hide Good;
    hide IsBlock;
    hide Free;
    hide WellPlaced;
    PlacedSite(t, m);
    var s := MarkedSite(t, m).value;
    BlockSpans(t[s.from..s.to], t[s.to..], m);
    assert t[s.from..] == t[s.from..s.to] + t[s.to..];
  }

  lemma SpanEnds(t: string, body: nat)
    requires body <= |t|
    ensures SpanLine(t[body + SpanLength(t[body..])..]) == 0
  {
    hide SpanLine;
    hide SpanLength;
    SpanIsMaximal(t[body..]);
    assert t[body..][SpanLength(t[body..])..] == t[body + SpanLength(t[body..])..];
  }

  /** A structural span never ends right where an OIDC block begins: the block's first line is indented. */
  lemma SpanEndsBeforeBlock(t: string, m: Marks, to: nat, body: nat)
    requires Good(m) && m.begin[0] == ' ' && WellPlaced(t, m) && !Free(t, m.Begin())
    requires body <= to <= |t| && to == body + SpanLength(t[body..])
    ensures MarkedSite(t, m).Some? && MarkedSite(t, m).value.from != to
  {
    hide MarkedSite;
    hide SpanLine;
    hide SpanLength;
    hide Good;
    hide Free;
    hide WellPlaced;
    BlockSiteSpans(t, m);
    SpanEnds(t, body);
  }

  lemma InertWithGap(w: string, gap: string, m: Marks, key: Pattern)
    requires Good(m) && Inert(w, m, key) && OneLine(key) && |key.text| > 1
    requires gap == "" || gap == "\n"
    ensures Inert(w + gap, m, key)
  {
    if gap == "" {
      assert w + gap == w;
    } else {
      FindMeaning(gap, m.Begin());
      FindMeaning(gap, key);
      FindConcat(w, gap, m.Begin());
      FindConcat(w, gap, key);
      AlignedConcat(w, gap);
    }
  }

  /** A structural span that does not reach the client splice stops at least one line short of it. */
  lemma SpanStopsShort(t: string, ma: Marks, mo: Marks)
    requires Good(ma) && Good(mo) && mo.begin[0] == ' '
    requires WellPlaced(t, mo) && OidcSite(t, mo).Some?
    requires MarkedSite(t, ma).None? && StructuralSite(t).Some? && AccessSite(t, ma).to <= Foot(t, mo)
    ensures AccessSite(t, ma).to < OidcSite(t, mo).value.from
  {
    hide SpanLength;
    hide Find;
    hide WellPlaced;
    OidcHole(t, mo);
    if !Free(t, mo.Begin()) {
      var s := AccessSite(t, ma);
      SpanEndsBeforeBlock(t, mo, s.to, s.from + |ACCESS_KEY.text|);
    }
  }

  lemma FillHole(t: string, s: Site, b: string)
    requires Within(s, t)
    ensures Fill(t, s, b) == t[..s.from] + (b + s.gap) + t[s.to..]
  {
    Assoc(t[..s.from], b, s.gap);
  }

  /** Where the access-control splice goes once the client block has been put in. */
  lemma AccessSiteAfterOidc(t: string, ma: Marks, mo: Marks, o: string)
    requires Good(ma) && Good(mo) && mo.begin[0] == ' '
    requires WellPlaced(t, ma) && WellPlaced(t, mo) && Apart(t, ma, mo)
    requires Inert(o, ma, ACCESS_KEY) && OidcSite(t, mo).Some?
    ensures var s, so := AccessSite(t, ma), OidcSite(t, mo).value;
            && (s.to <= so.from || so.to <= s.from)
            && AccessSite(Fill(t, so, o), ma) == (if s.to <= so.from then s else Moved(s, so.from, so.to, |o|))
            && WellPlaced(Fill(t, so, o), ma)
  {
    hide MarkedSite;
    hide StructuralSite;
    hide Find;
    hide OidcSite;
    hide Foot;
    hide WellPlaced;
    hide Inert;
    hide Aligned;
    hide Fill;
    var s, so := AccessSite(t, ma), OidcSite(t, mo).value;
    OidcHole(t, mo);
    if MarkedSite(t, ma).None? && StructuralSite(t).Some? && s.to <= Foot(t, mo) {
      SpanStopsShort(t, ma, mo);
    }
    AccessSiteStays(t[..so.from], t[so.from..so.to], o, t[so.to..], ma);
    FillHole(t, so, o);
    assert o + so.gap == o;
  }

  /** Where the client splice goes once the access-control block has been put in. */
  lemma OidcSiteAfterAccess(t: string, ma: Marks, mo: Marks, a: string)
    requires Good(ma) && Good(mo)
    requires WellPlaced(t, ma) && WellPlaced(t, mo) && Apart(t, ma, mo)
    requires Inert(a, mo, CLIENTS_KEY)
    ensures var s := AccessSite(t, ma);
            OidcSite(Fill(t, s, a), mo) ==
            match OidcSite(t, mo)
            case None => None
            case Some(so) => Some(Moved(so, s.from, s.to, |a| + |s.gap|))
    ensures MarkedSite(SpliceAccess(t, ma, a), mo).Some? <==> MarkedSite(t, mo).Some?
    ensures WellPlaced(SpliceAccess(t, ma, a), mo)
  {
    hide MarkedSite;
    hide StructuralSite;
    hide Find;
    hide OidcSite;
    hide Foot;
    hide WellPlaced;
    hide Inert;
    hide Aligned;
    hide Fill;
    hide Good;
    hide AccessSite;
    var s := AccessSite(t, ma);
    GapOf(t, ma);
    AccessHole(t, ma);
    InertWithGap(a, s.gap, mo, CLIENTS_KEY);
    if OidcSite(t, mo).Some? {
      OidcHole(t, mo);
    }
    FillHole(t, s, a);
    var p, x, r := t[..s.from], t[s.from..s.to], t[s.to..];
    assert t == p + x + r && |p| == s.from && |p| + |x| == s.to;
    OidcSiteStays(p, x, a + s.gap, r, mo);
  }

  lemma GapOf(t: string, m: Marks)
    requires Good(m)
    ensures var s := AccessSite(t, m); if s.gap == "" then s.from < s.to else s.gap == "\n" && s.to == 0
    ensures OneLine(CLIENTS_KEY) && |CLIENTS_KEY.text| > 1
  {
  }

  /**
   * Regenerating the access rules and regenerating the clients in either order leaves the same file,
   * wherever each block is or goes: in its old place, in the structural span, at the top, behind
   * `clients:`, or nowhere.
   */
  lemma SplicesCommute(t: string, ma: Marks, mo: Marks, a: string, o: string)
    requires Good(ma) && Good(mo) && mo.begin[0] == ' '
    requires WellPlaced(t, ma) && WellPlaced(t, mo) && Apart(t, ma, mo)
    requires Inert(a, mo, CLIENTS_KEY) && Inert(o, ma, ACCESS_KEY)
    ensures SpliceOidc(SpliceAccess(t, ma, a), mo, o) == SpliceAccess(SpliceOidc(t, mo, o), ma, a)
    ensures WellPlaced(SpliceAccess(t, ma, a), mo) && WellPlaced(SpliceOidc(t, mo, o), ma)
  {
    hide AccessSite;
    hide OidcSite;
    hide Fill;
    hide WellPlaced;
    hide Inert;
    var s := AccessSite(t, ma);
    OidcSiteAfterAccess(t, ma, mo, a);
    if OidcSite(t, mo).Some? {
      var so := OidcSite(t, mo).value;
      AccessSiteAfterOidc(t, ma, mo, o);
      OidcHole(t, mo);
      GapOf(t, ma);
      if s.to <= so.from {
        FillsCommute(t, s, a, so, o);
      } else {
        FillsCommute(t, so, o, s, a);
      }
    }
  }

  // ----- A splice leaves the two blocks as far apart as they were -----

  /** Behind `clients:`, the client splice depends on the key line in front of its site too. */
  lemma FootOf(t: string, m: Marks)
    requires OidcSite(t, m).Some?
    ensures OidcSite(t, m).value.from == Foot(t, m) + if MarkedSite(t, m).Some? then 0 else |CLIENTS_KEY.text|
  {
    hide Find;
  }

  /** Once it is in, the block is found where it was put. */
  lemma AccessBlockIsFound(t: string, m: Marks, a: string)
    requires Good(m) && WellPlaced(t, m) && IsBlock(a, m)
    ensures AccessSite(SpliceAccess(t, m, a), m) == Site(AccessSite(t, m).from, AccessSite(t, m).from + |a|, "")
  {
    hide MarkedSite;
    hide StructuralSite;
    hide WellPlaced;
    hide Good;
    hide IsBlock;
    var s := AccessSite(t, m);
    AccessSiteIsClean(t, m);
    MarkedSiteOfBlock(t[..s.from], a, s.gap + t[s.to..], m);
    Assoc(t[..s.from] + a, s.gap, t[s.to..]);
  }

  lemma OidcBlockIsFound(t: string, m: Marks, o: string)
    requires Good(m) && WellPlaced(t, m) && IsBlock(o, m) && OidcSite(t, m).Some?
    ensures var from := OidcSite(t, m).value.from;
            MarkedSite(SpliceOidc(t, m, o), m) == Some(Site(from, from + |o|, ""))
  {
    hide MarkedSite;
    hide WellPlaced;
    hide Good;
    hide IsBlock;
    var s := OidcSite(t, m).value;
    OidcSiteIsClean(t, m);
    MarkedSiteOfBlock(t[..s.from], o, s.gap + t[s.to..], m);
    Assoc(t[..s.from] + o, s.gap, t[s.to..]);
  }

  lemma AccessSpliceStaysApart(t: string, ma: Marks, mo: Marks, a: string)
    requires Good(ma) && Good(mo)
    requires WellPlaced(t, ma) && WellPlaced(t, mo) && Apart(t, ma, mo)
    requires IsBlock(a, ma) && Inert(a, mo, CLIENTS_KEY)
    ensures Apart(SpliceAccess(t, ma, a), ma, mo)
  {
    hide AccessSite;
    hide OidcSite;
    hide MarkedSite;
    hide Foot;
    hide WellPlaced;
    hide Inert;
    hide IsBlock;
    hide Good;
    AccessBlockIsFound(t, ma, a);
    OidcSiteAfterAccess(t, ma, mo, a);
    if OidcSite(t, mo).Some? {
      FootOf(t, mo);
      FootOf(SpliceAccess(t, ma, a), mo);
    }
  }

  lemma OidcSpliceStaysApart(t: string, ma: Marks, mo: Marks, o: string)
    requires Good(ma) && Good(mo) && mo.begin[0] == ' '
    requires WellPlaced(t, ma) && WellPlaced(t, mo) && Apart(t, ma, mo)
    requires IsBlock(o, mo) && Inert(o, ma, ACCESS_KEY)
    ensures Apart(SpliceOidc(t, mo, o), ma, mo)
  {
    if OidcSite(t, mo).Some? {
      OidcBlockIsFound(t, mo, o);
      AccessSiteAfterOidc(t, ma, mo, o);
      hide AccessSite;
      hide MarkedSite;
      hide WellPlaced;
      hide Inert;
      hide IsBlock;
      hide Good;
      hide Find;
    }
  }
}
