/**
 * How the two generated blocks are spliced into Authelia's live configuration
 * (backend/src/services/autheliaAccessControl.ts, backend/src/services/autheliaOidcClients.ts), where a splice goes,
 * and that the last splice of a kind wins.
 */
module ConfigSplice {
  import opened Common
  import opened TextSearch
  import AccessText

  /** The marker pair of a managed block; `strict` when the end marker must be followed by a line break. */
  datatype Marks = Marks(begin: string, end: string, strict: bool) {
    function Begin(): Pattern {
      Pattern(begin, false)
    }

    function End(): Pattern {
      Pattern(end, false)
    }

    /** What the search for the end of the block looks for. */
    function Stop(): Pattern {
      Pattern(if strict then end + "\n" else end, false)
    }
  }

  const ACCESS := Marks(AccessText.MARK_BEGIN, AccessText.MARK_END, false)

  const INDENT := "      "

  const OIDC_PLAN := " — plan.md \U{A7}270; "
  const OIDC_NOTE := "OIDC clients for exposed apps"
  const OIDC_SOURCE := " with `oidcClient` in the "
  const OIDC_WARNING := "registry. Manual edits are lost."

  const OIDC_BEGIN := INDENT + AccessText.MANAGED + OIDC_PLAN + OIDC_NOTE + OIDC_SOURCE + OIDC_WARNING

  const OIDC := Marks(OIDC_BEGIN, INDENT + AccessText.MARK_END, true)

  const ACCESS_KEY := Pattern("access_control:\n", true)
  const CLIENTS_KEY := Pattern("    clients:\n", true)

  /** A stretch of text to replace, and what to put behind the block that replaces it. */
  datatype Site = Site(from: nat, to: nat, gap: string)

  predicate Within(s: Site, t: string) {
    s.from <= s.to <= |t|
  }

  /** The leftmost marker pair, from the first begin marker to the first end marker behind it. */
  function MarkedSite(t: string, m: Marks): (r: Option<Site>)
    ensures r.Some? ==> Within(r.value, t)
  {
    match Find(t, m.Begin())
    case None => None
    case Some(i) =>
      var tail := t[i + |m.begin|..];
      match Find(tail, m.Stop())
      case None => None
      case Some(e) =>
        var j := i + |m.begin| + e + |m.Stop().text|;
        Some(Site(i, if j < |t| && t[j] == '\n' && !m.strict then j + 1 else j, ""))
  }

  /** How many characters stand before the first line terminator. */
  function DotRun(s: string): (n: nat)
    ensures n <= |s|
    ensures forall i :: 0 <= i < n ==> !IsTerminator(s[i])
    ensures n < |s| ==> IsTerminator(s[n])
  {
    if s == "" || IsTerminator(s[0]) then 0 else 1 + DotRun(s[1..])
  }

  /** The length of a first line that is blank, indented or a comment; 0 when it is none of these. */
  function SpanLine(s: string): (n: nat)
    ensures n <= |s|
    ensures n > 0 ==> s[n - 1] == '\n'
  {
    if s == "" then 0
    else if s[0] == '\n' then 1
    else if s[0] == ' ' || s[0] == '\t' || s[0] == '#' then
      var n := DotRun(s);
      if n < |s| && s[n] == '\n' then n + 1 else 0
    else 0
  }

  /** How far blank, indented and comment lines reach. */
  function SpanLength(s: string): (n: nat)
    ensures n <= |s|
    ensures n > 0 ==> s[n - 1] == '\n'
    decreases |s|
  {
    var n := SpanLine(s);
    if n == 0 then 0 else n + SpanLength(s[n..])
  }

  /** The `access_control:` key and the lines under it. */
  function StructuralSite(t: string): (r: Option<Site>)
    ensures r.Some? ==> Within(r.value, t)
  {
    match Find(t, ACCESS_KEY)
    case None => None
    case Some(i) =>
      var body := i + |ACCESS_KEY.text|;
      Some(Site(i, body + SpanLength(t[body..]), ""))
  }

  /** Where the access-control block goes: its old place, else the structural span, else the top of the file. */
  function AccessSite(t: string, m: Marks): (s: Site)
    ensures Within(s, t)
  {
    if MarkedSite(t, m).Some? then MarkedSite(t, m).value
    else if StructuralSite(t).Some? then StructuralSite(t).value
    else Site(0, 0, "\n")
  }

  /** Where the client block goes: its old place, else right behind `clients:`, else nowhere. */
  function OidcSite(t: string, m: Marks): (s: Option<Site>)
    ensures s.Some? ==> Within(s.value, t)
  {
    if MarkedSite(t, m).Some? then MarkedSite(t, m)
    else match Find(t, CLIENTS_KEY)
      case None => None
      case Some(x) => Some(Site(x + |CLIENTS_KEY.text|, x + |CLIENTS_KEY.text|, ""))
  }

  function Fill(t: string, s: Site, block: string): string
    requires Within(s, t)
  {
    t[..s.from] + block + s.gap + t[s.to..]
  }

  function SpliceAccess(t: string, m: Marks, block: string): string {
    Fill(t, AccessSite(t, m), block)
  }

  function SpliceOidc(t: string, m: Marks, block: string): string {
    match OidcSite(t, m)
    case None => t
    case Some(s) => Fill(t, s, block)
  }

  // ----- Well-formed blocks -----

  predicate NoBreaks(s: string) {
    forall i :: 0 <= i < |s| ==> !IsTerminator(s[i])
  }

  /** What the laws need of a marker pair: one line each, no terminator in them. */
  predicate Good(m: Marks) {
    && m.begin != "" && m.end != ""
    && NoBreaks(m.begin) && NoBreaks(m.end)
  }

  /** A block as rendered: begin marker, lines that do not hold the end marker, end marker, line break. */
  predicate IsBlockOf(b: string, body: string, m: Marks) {
    && b == m.begin + body + m.end + "\n"
    && body != "" && body[0] == '\n' && Aligned(body)
    && Free(body, m.End())
  }

  ghost predicate IsBlock(b: string, m: Marks) {
    exists body :: IsBlockOf(b, body, m)
  }

  /** The text holds no begin marker, or the first one begins a well-formed block at the start of a line. */
  ghost predicate WellPlaced(t: string, m: Marks) {
    Free(t, m.Begin()) ||
    exists p, b, r :: t == p + b + r && Aligned(p) && Free(p, m.Begin()) && IsBlock(b, m)
  }

  lemma BlockIsAligned(b: string, m: Marks)
    requires IsBlock(b, m)
    ensures Aligned(b) && b != ""
  {
  }

  /** A well-formed block is found exactly, whatever stands behind it. */
  lemma MarkedSiteOfBlock(p: string, b: string, r: string, m: Marks)
    requires Good(m) && Aligned(p) && Free(p, m.Begin()) && IsBlock(b, m)
    ensures MarkedSite(p + b + r, m) == Some(Site(|p|, |p| + |b|, ""))
  {
    var body :| IsBlockOf(b, body, m);
    hide Find;
    hide MarkedSite;
    hide Good;
    FindsOfBlock(p, b, r, body, m);
    MarkedSiteFrom(p + b + r, m, |p|, |body|);
  }

  lemma FindsOfBlock(p: string, b: string, r: string, body: string, m: Marks)
    requires Good(m) && Aligned(p) && Free(p, m.Begin()) && IsBlockOf(b, body, m)
    ensures var t := p + b + r;
            && Find(t, m.Begin()) == Some(|p|)
            && Find(t[|p| + |m.begin|..], m.Stop()) == Some(|body|)
            && t[|p| + |m.begin| + |body| + |m.end|] == '\n'
  {
    var t := p + b + r;
    Assoc(p, b, r);
    BeginOfBlock(p, b + r, m);
    BehindBegin(p, b, r, body, m);
    StopBehindBody(body, r, m);
    assert t[|p| + |b| - 1] == b[|b| - 1];
  }

  lemma MarkedSiteFrom(t: string, m: Marks, i: nat, e: nat)
    requires Find(t, m.Begin()) == Some(i)
    requires i + |m.begin| <= |t| && Find(t[i + |m.begin|..], m.Stop()) == Some(e)
    requires i + |m.begin| + e + |m.end| < |t| && t[i + |m.begin| + e + |m.end|] == '\n'
    ensures MarkedSite(t, m) == Some(Site(i, i + |m.begin| + e + |m.end| + 1, ""))
  {
  }

  lemma BehindBegin(p: string, b: string, r: string, body: string, m: Marks)
    requires b == m.begin + body + m.end + "\n"
    ensures (p + b + r)[|p| + |m.begin|..] == body + (m.end + ("\n" + r))
  {
    var rest := body + (m.end + ("\n" + r));
    Assoc(m.begin, body, m.end);
    Assoc(m.begin, body + m.end, "\n");
    Assoc(body, m.end, "\n");
    Assoc(m.begin, body + (m.end + "\n"), r);
    Assoc(body, m.end + "\n", r);
    Assoc(m.end, "\n", r);
    assert b + r == m.begin + rest;
    Assoc(p, b, r);
    Assoc(p, m.begin, rest);
    Cut(p, m.begin, rest);
  }

  lemma BeginOfBlock(p: string, u: string, m: Marks)
    requires Good(m) && Aligned(p) && Free(p, m.Begin()) && m.begin <= u
    ensures Find(p + u, m.Begin()) == Some(|p|)
  {
    FindConcat(p, u, m.Begin());
    FindIsTheFirstHit(u, m.Begin(), 0);
  }

  lemma StopBehindBody(body: string, r: string, m: Marks)
    requires Good(m) && Aligned(body) && Free(body, m.End())
    ensures Find(body + (m.end + ("\n" + r)), m.Stop()) == Some(|body|)
  {
    var stop := m.Stop();
    var rest := m.end + ("\n" + r);
    FindConcat(body, rest, stop);
    StopNeedsEnd(body, m);
    assert rest[..|m.end|] == m.end && rest[..|m.end| + 1] == m.end + "\n";
    FindIsTheFirstHit(rest, stop, 0);
  }

  lemma StopNeedsEnd(s: string, m: Marks)
    requires Free(s, m.End())
    ensures Free(s, m.Stop())
  {
    var stop := m.Stop();
    var x := Find(s, stop);
    FindMeaning(s, stop);
    FindMeaning(s, m.End());
    if x.Some? {
      assert s[x.value..x.value + |stop.text|][..|m.end|] == s[x.value..x.value + |m.end|];
      assert Hit(s, m.End(), x.value);
    }
  }

  // ----- One splice after another -----

  /** Where a splice happens: at the start of a line, before any begin marker but the one replaced. */
  lemma AccessSiteIsClean(t: string, m: Marks)
    requires Good(m) && WellPlaced(t, m)
    ensures var p := t[..AccessSite(t, m).from]; Aligned(p) && Free(p, m.Begin())
  {
    if Free(t, m.Begin()) {
      FindMeaning(t, ACCESS_KEY);
      PrefixFree(t, AccessSite(t, m).from, m.Begin());
    } else {
      PlacedSite(t, m);
    }
  }

  lemma OidcSiteIsClean(t: string, m: Marks)
    requires Good(m) && WellPlaced(t, m) && OidcSite(t, m).Some?
    ensures var p := t[..OidcSite(t, m).value.from]; Aligned(p) && Free(p, m.Begin())
  {
    if Free(t, m.Begin()) {
      var x := Find(t, CLIENTS_KEY).value;
      FindMeaning(t, CLIENTS_KEY);
      assert t[x..x + |CLIENTS_KEY.text|][|CLIENTS_KEY.text| - 1] == '\n';
      PrefixFree(t, OidcSite(t, m).value.from, m.Begin());
    } else {
      PlacedSite(t, m);
    }
  }

  lemma PlacedSite(t: string, m: Marks)
    requires Good(m) && WellPlaced(t, m) && !Free(t, m.Begin())
    ensures var s := MarkedSite(t, m);
            s.Some? && Aligned(t[..s.value.from]) && Free(t[..s.value.from], m.Begin()) &&
            IsBlock(t[s.value.from..s.value.to], m) && s.value.gap == ""
  {
    var p, b, r :| t == p + b + r && Aligned(p) && Free(p, m.Begin()) && IsBlock(b, m);
    MarkedSiteOfBlock(p, b, r, m);
    assert t[..|p|] == p && t[|p|..|p| + |b|] == b;
  }

  lemma PrefixFree(t: string, n: nat, p: Pattern)
    requires n <= |t| && Free(t, p) && !p.anchored
    ensures Free(t[..n], p)
  {
    var x := Find(t[..n], p);
    FindMeaning(t[..n], p);
    FindMeaning(t, p);
    if x.Some? {
      assert t[..n][x.value..x.value + |p.text|] == t[x.value..x.value + |p.text|];
      assert Hit(t, p, x.value);
    }
  }

  /** Filling the site of a block that was just filled in replaces that block and nothing else. */
  lemma RefillReplaces(t: string, s: Site, m: Marks, b1: string, b2: string)
    requires Good(m) && Within(s, t) && Aligned(t[..s.from]) && Free(t[..s.from], m.Begin())
    requires IsBlock(b1, m)
    ensures var t1 := Fill(t, s, b1);
            MarkedSite(t1, m) == Some(Site(s.from, s.from + |b1|, "")) &&
            Fill(t1, MarkedSite(t1, m).value, b2) == Fill(t, s, b2) &&
            WellPlaced(t1, m)
  {
    var p, r := t[..s.from], s.gap + t[s.to..];
    FillIsSandwich(t, s, b1);
    FillIsSandwich(t, s, b2);
    MarkedSiteOfBlock(p, b1, r, m);
    FillBlock(p, b1, r, b2);
  }

  lemma FillIsSandwich(t: string, s: Site, b: string)
    requires Within(s, t)
    ensures Fill(t, s, b) == t[..s.from] + b + (s.gap + t[s.to..])
  {
    Assoc(t[..s.from] + b, s.gap, t[s.to..]);
  }

  lemma FillBlock(p: string, b1: string, r: string, b2: string)
    ensures Fill(p + b1 + r, Site(|p|, |p| + |b1|, ""), b2) == p + b2 + r
  {
    Cut(p, b1, r);
    assert p + b2 + "" == p + b2;
  }

  /**
   * The last access-control splice wins: what an earlier one put in leaves no trace. With `b1 == b2`
   * this is the fixed point that keeps a repeated sync from restarting Authelia.
   */
  lemma LastAccessSpliceWins(t: string, m: Marks, b1: string, b2: string)
    requires Good(m) && WellPlaced(t, m) && IsBlock(b1, m)
    ensures SpliceAccess(SpliceAccess(t, m, b1), m, b2) == SpliceAccess(t, m, b2)
    ensures WellPlaced(SpliceAccess(t, m, b1), m)
  {
    AccessSiteIsClean(t, m);
    RefillReplaces(t, AccessSite(t, m), m, b1, b2);
  }

  /** The last client splice wins, also when the file has no `clients:` list to put it in. */
  lemma LastOidcSpliceWins(t: string, m: Marks, b1: string, b2: string)
    requires Good(m) && WellPlaced(t, m) && IsBlock(b1, m)
    ensures SpliceOidc(SpliceOidc(t, m, b1), m, b2) == SpliceOidc(t, m, b2)
    ensures WellPlaced(SpliceOidc(t, m, b1), m)
  {
    if OidcSite(t, m).Some? {
      OidcSiteIsClean(t, m);
      RefillReplaces(t, OidcSite(t, m).value, m, b1, b2);
    }
  }
}
