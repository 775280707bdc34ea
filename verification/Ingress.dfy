/**
 * The Cloudflare tunnel's routing table and the DNS records behind it
 * (backend/src/services/cloudflareTunnelClient.ts). The first rule that matches a hostname serves it.
 */
module Ingress {
  import opened Common
  import opened Strings

  /** How a rule talks to its origin; `extra` stands for settings the dashboard does not manage. */
  datatype Origin = Origin(http2: bool, noTls: bool, serverName: string, extra: string)

  datatype Rule = Rule(hostname: string, service: string, origin: Option<Origin>, extra: string)

  datatype Record = Record(id: string, kind: string, name: string, content: string, proxied: bool)

  /** What the dashboard asks for. */
  datatype Dest = Dest(service: string, http2: bool, noTls: bool, serverName: string)

  datatype World = World(ingress: seq<Rule>, records: seq<Record>)

  const NOT_FOUND := Rule("", "http_status:404", None, "")

  /** The first rule with exactly this hostname; `|t|` when there is none. */
  function First(t: seq<Rule>, hostname: string): (i: nat)
    ensures i <= |t|
    ensures i < |t| ==> t[i].hostname == hostname
  {
    if t == [] || t[0].hostname == hostname then 0 else 1 + First(t[1..], hostname)
  }

  function DestOf(r: Rule): Dest {
    match r.origin
    case None => Dest(r.service, false, false, "")
    case Some(o) => Dest(r.service, o.http2, o.noTls, o.serverName)
  }

  function OriginFor(d: Dest): Option<Origin> {
    if d.http2 || d.noTls || d.serverName != "" then Some(Origin(d.http2, d.noTls, d.serverName, "")) else None
  }

  function EnsureRules(t: seq<Rule>, hostname: string, d: Dest): seq<Rule> {
    var i := First(t, hostname);
    if i < |t| then
      if DestOf(t[i]) == d then t else t[i := t[i].(service := d.service, origin := OriginFor(d))]
    else
      var rule := Rule(hostname, d.service, OriginFor(d), "");
      var c := First(t, "");
      if c < |t| then t[..c] + [rule] + t[c..] else t + [rule, NOT_FOUND]
  }

  function Without(t: seq<Rule>, hostname: string): seq<Rule> {
    if t == [] then [] else (if t[0].hostname != hostname then [t[0]] else []) + Without(t[1..], hostname)
  }

  function RemoveRules(t: seq<Rule>, hostname: string): seq<Rule> {
    var remaining := Without(t, hostname);
    if |remaining| == |t| then t
    else if First(remaining, "") == |remaining| then remaining + [NOT_FOUND]
    else remaining
  }

  // ----- What the table means -----

  /** Empty, or hostnames without repeats before a single rule for everything else. */
  predicate WellShaped(t: seq<Rule>) {
    t == [] || (t[|t| - 1].hostname == "" && Distinct(Names(t)))
  }

  function Names(t: seq<Rule>): (r: seq<string>)
    ensures |r| == |t|
  {
    seq(|t|, i requires 0 <= i < |t| => t[i].hostname)
  }

  /** The rule that serves a hostname. */
  function Route(t: seq<Rule>, hostname: string): Option<Rule> {
    if t == [] then None
    else if t[0].hostname == hostname || t[0].hostname == "" then Some(t[0])
    else Route(t[1..], hostname)
  }

  /** Where a hostname of its own leads; None when only the rule for everything else covers it. */
  function Serves(t: seq<Rule>, hostname: string): Option<Dest> {
    var i := First(t, hostname);
    if i < |t| then Some(DestOf(t[i])) else None
  }

  lemma {:induction false} FirstIs(t: seq<Rule>, hostname: string, i: nat)
    requires i <= |t| && (i < |t| ==> t[i].hostname == hostname)
    requires forall k :: 0 <= k < i ==> t[k].hostname != hostname
    ensures First(t, hostname) == i
  {
    if i > 0 {
      FirstIs(t[1..], hostname, i - 1);
    }
  }

  lemma {:induction false} NoneBefore(t: seq<Rule>, hostname: string)
    ensures forall k :: 0 <= k < First(t, hostname) ==> t[k].hostname != hostname
  {
    if t != [] && t[0].hostname != hostname {
      NoneBefore(t[1..], hostname);
    }
  }

  function Inserted(t: seq<Rule>, c: nat, rule: Rule): seq<Rule>
    requires c <= |t|
  {
    t[..c] + [rule] + t[c..]
  }

  function Dropped(t: seq<Rule>, i: nat): seq<Rule>
    requires i < |t|
  {
    t[..i] + t[i + 1..]
  }

  lemma {:induction false} FirstInserted(t: seq<Rule>, c: nat, rule: Rule, hostname: string)
    requires c <= |t|
    ensures First(Inserted(t, c, rule), hostname) ==
            if First(t, hostname) < c then First(t, hostname)
            else if rule.hostname == hostname then c
            else First(t, hostname) + 1
  {
    var after := Inserted(t, c, rule);
    if c == 0 {
      assert after[1..] == t;
    } else {
      FirstInserted(t[1..], c - 1, rule, hostname);
      assert after[1..] == Inserted(t[1..], c - 1, rule);
    }
  }

  lemma HeadIsAlone(t: seq<Rule>)
    requires t != [] && Distinct(Names(t))
    ensures Distinct(Names(t[1..])) && First(t[1..], t[0].hostname) == |t| - 1
  {
    assert forall k :: 0 <= k < |t| ==> Names(t)[k] == t[k].hostname;
    assert Names(t[1..]) == Names(t)[1..];
    FirstIs(t[1..], t[0].hostname, |t| - 1);
  }

  lemma DroppedHead(t: seq<Rule>)
    requires t != []
    ensures Dropped(t, 0) == t[1..]
  {
  }

  lemma DroppedTail(t: seq<Rule>, i: nat)
    requires 0 < i < |t|
    ensures Dropped(t, i) == [t[0]] + Dropped(t[1..], i - 1) && Dropped(t, i)[1..] == Dropped(t[1..], i - 1)
  {
  }

  lemma FirstCons(r: Rule, t: seq<Rule>, hostname: string)
    ensures First([r] + t, hostname) == if r.hostname == hostname then 0 else First(t, hostname) + 1
  {
    assert ([r] + t)[1..] == t;
  }

  lemma {:induction false} FirstDropped(t: seq<Rule>, i: nat, hostname: string)
    requires i < |t| && Distinct(Names(t))
    ensures First(Dropped(t, i), hostname) ==
            if First(t, hostname) < i then First(t, hostname)
            else if First(t, hostname) == i then |t| - 1
            else First(t, hostname) - 1
  {
    HeadIsAlone(t);
    hide Names;
    hide Distinct;
    hide Dropped;
    FirstCons(t[0], t[1..], hostname);
    assert t == [t[0]] + t[1..];
    if i == 0 {
      DroppedHead(t);
    } else {
      FirstDropped(t[1..], i - 1, hostname);
      DroppedTail(t, i);
      FirstCons(t[0], Dropped(t[1..], i - 1), hostname);
    }
    hide First;
  }

  lemma {:induction false} FirstUpdated(t: seq<Rule>, i: nat, rule: Rule, hostname: string)
    requires i < |t| && rule.hostname == t[i].hostname
    ensures First(t[i := rule], hostname) == First(t, hostname)
  {
    if i == 0 {
      assert t[i := rule][1..] == t[1..];
    } else {
      FirstUpdated(t[1..], i - 1, rule, hostname);
      assert t[i := rule][1..] == t[1..][i - 1 := rule];
    }
  }

  /** The rule for everything else is the last. */
  lemma CatchAllIsLast(t: seq<Rule>)
    requires WellShaped(t) && t != []
    ensures First(t, "") == |t| - 1
  {
    assert forall k :: 0 <= k < |t| ==> Names(t)[k] == t[k].hostname;
    FirstIs(t, "", |t| - 1);
  }

  lemma EnsuredTable(t: seq<Rule>, hostname: string, d: Dest)
    requires WellShaped(t) && t != [] && hostname != ""
    ensures var i := First(t, hostname);
            EnsureRules(t, hostname, d) ==
            if i < |t| then (if DestOf(t[i]) == d then t else t[i := t[i].(service := d.service, origin := OriginFor(d))])
            else Inserted(t, |t| - 1, Rule(hostname, d.service, OriginFor(d), ""))
  {
    CatchAllIsLast(t);
  }

  function RuleFor(t: seq<Rule>, hostname: string): Rule
    requires t != []
  {
    var i := First(t, hostname); if i < |t| then t[i] else t[|t| - 1]
  }

  /** In a well-shaped table a hostname gets its own rule, and without one the last rule. */
  lemma {:induction false} RouteInShape(t: seq<Rule>, hostname: string)
    requires WellShaped(t) && t != [] && hostname != ""
    ensures Route(t, hostname) == Some(RuleFor(t, hostname))
  {
    assert forall k :: 0 <= k < |t| ==> Names(t)[k] == t[k].hostname;
    if t[0].hostname != hostname && t[0].hostname != "" {
      assert Names(t[1..]) == Names(t)[1..];
      RouteInShape(t[1..], hostname);
    }
  }

  lemma EnsureKeepsShape(t: seq<Rule>, hostname: string, d: Dest)
    requires WellShaped(t) && hostname != ""
    ensures WellShaped(EnsureRules(t, hostname, d)) && EnsureRules(t, hostname, d) != []
    ensures t != [] ==> EnsureRules(t, hostname, d)[|EnsureRules(t, hostname, d)| - 1] == t[|t| - 1]
  {
    var after := EnsureRules(t, hostname, d);
    if t != [] {
      EnsuredTable(t, hostname, d);
      if First(t, hostname) < |t| {
        assert Names(after) == Names(t);
      } else {
        InsertedIsDistinct(t, Rule(hostname, d.service, OriginFor(d), ""));
      }
    }
  }

  lemma InsertedIsDistinct(t: seq<Rule>, rule: Rule)
    requires WellShaped(t) && t != [] && First(t, rule.hostname) == |t|
    ensures WellShaped(Inserted(t, |t| - 1, rule)) && Inserted(t, |t| - 1, rule)[|t|] == t[|t| - 1]
  {
    NoneBefore(t, rule.hostname);
    var names, after := Names(t), Names(Inserted(t, |t| - 1, rule));
    assert after == names[..|t| - 1] + [rule.hostname] + [names[|t| - 1]];
  }

  lemma EnsureServesFromEmpty(hostname: string, d: Dest, other: string)
    requires hostname != "" && other != ""
    ensures Serves(EnsureRules([], hostname, d), other) == if other == hostname then Some(d) else None
  {
    var rule := Rule(hostname, d.service, OriginFor(d), "");
    assert [] + [rule, NOT_FOUND] == [rule, NOT_FOUND];
    FirstIs([rule, NOT_FOUND], other, if other == hostname then 0 else 2);
  }

  /** A first route, and a last one taken out: everything else is answered with status 404. */
  lemma NothingElseIsServed(hostname: string, d: Dest)
    requires hostname != ""
    ensures var t := EnsureRules([], hostname, d);
            && |t| == 2 && t[0].hostname == hostname && t[0].service == d.service && t[0].extra == ""
            && (t[0].origin == None <==> !d.http2 && !d.noTls && d.serverName == "")
            && (t[0].origin.Some? ==> t[0].origin.value == Origin(d.http2, d.noTls, d.serverName, ""))
            && t[1] == Rule("", "http_status:404", None, "")
            && RemoveRules([t[0]], hostname) == [Rule("", "http_status:404", None, "")]
  {
    var t := EnsureRules([], hostname, d);
    assert [t[0]][1..] == [];
    assert Without([t[0]], hostname) == Without([], hostname) == [];
    assert [] + [NOT_FOUND] == [NOT_FOUND];
  }

  /** The hostname leads where it was asked to, and no other hostname leads anywhere else than before. */
  lemma EnsureServes(t: seq<Rule>, hostname: string, d: Dest, other: string)
    requires WellShaped(t) && hostname != "" && other != ""
    ensures Serves(EnsureRules(t, hostname, d), other) == if other == hostname then Some(d) else Serves(t, other)
  {
    if t == [] {
      EnsureServesFromEmpty(hostname, d, other);
      return;
    }
    EnsuredTable(t, hostname, d);
    CatchAllIsLast(t);
    var i := First(t, hostname);
    hide First;
    hide EnsureRules;
    if i < |t| {
      FirstUpdated(t, i, t[i].(service := d.service, origin := OriginFor(d)), other);
    } else {
      FirstInserted(t, |t| - 1, Rule(hostname, d.service, OriginFor(d), ""), other);
    }
  }

  /** Even the rule itself, with the settings nobody asked about, is the one that served the other hostname. */
  lemma EnsureKeepsOtherRoutes(t: seq<Rule>, hostname: string, d: Dest, other: string)
    requires WellShaped(t) && t != [] && hostname != "" && other != "" && other != hostname
    ensures Route(EnsureRules(t, hostname, d), other) == Route(t, other)
  {
    EnsureKeepsShape(t, hostname, d);
    RouteInShape(t, other);
    RouteInShape(EnsureRules(t, hostname, d), other);
    EnsuredTable(t, hostname, d);
    CatchAllIsLast(t);
    var i := First(t, hostname);
    hide First;
    hide EnsureRules;
    hide Route;
    if i < |t| {
      FirstUpdated(t, i, t[i].(service := d.service, origin := OriginFor(d)), other);
    } else {
      FirstInserted(t, |t| - 1, Rule(hostname, d.service, OriginFor(d), ""), other);
    }
  }

  lemma {:induction false} WithoutMissing(t: seq<Rule>, hostname: string)
    ensures |Without(t, hostname)| <= |t|
    ensures |Without(t, hostname)| == |t| <==> First(t, hostname) == |t|
    ensures |Without(t, hostname)| == |t| ==> Without(t, hostname) == t
  {
    if t != [] {
      WithoutMissing(t[1..], hostname);
    }
  }

  lemma {:induction false} WithoutAppend(a: seq<Rule>, b: seq<Rule>, hostname: string)
    ensures Without(a + b, hostname) == Without(a, hostname) + Without(b, hostname)
  {
    if a == [] {
      assert a + b == b;
    } else {
      WithoutAppend(a[1..], b, hostname);
      assert (a + b)[0] == a[0] && (a + b)[1..] == a[1..] + b;
      Assoc(if a[0].hostname != hostname then [a[0]] else [], Without(a[1..], hostname), Without(b, hostname));
    }
  }

  /** Taking one rule out of a table of distinct hostnames leaves the rest in order. */
  lemma {:induction false} WithoutOne(t: seq<Rule>, hostname: string)
    requires Distinct(Names(t)) && First(t, hostname) < |t|
    ensures Without(t, hostname) == Dropped(t, First(t, hostname))
  {
    HeadIsAlone(t);
    hide Names;
    hide Distinct;
    if t[0].hostname == hostname {
      WithoutMissing(t[1..], hostname);
    } else {
      WithoutOne(t[1..], hostname);
      assert Dropped(t, First(t, hostname)) == [t[0]] + Dropped(t[1..], First(t[1..], hostname));
    }
  }

  lemma RemovedTable(t: seq<Rule>, hostname: string)
    requires WellShaped(t) && hostname != ""
    ensures var i := First(t, hostname);
            RemoveRules(t, hostname) == if i < |t| then Dropped(t, i) else t
  {
    WithoutMissing(t, hostname);
    var i := First(t, hostname);
    if i < |t| {
      WithoutOne(t, hostname);
      CatchAllIsLast(t);
      FirstDropped(t, i, "");
    }
  }

  lemma RemoveKeepsShape(t: seq<Rule>, hostname: string)
    requires WellShaped(t) && hostname != ""
    ensures WellShaped(RemoveRules(t, hostname))
    ensures t == [] <==> RemoveRules(t, hostname) == []
    ensures t != [] ==> RemoveRules(t, hostname)[|RemoveRules(t, hostname)| - 1] == t[|t| - 1]
  {
    RemovedTable(t, hostname);
    var i := First(t, hostname);
    if i < |t| {
      DroppedIsDistinct(t, i);
      DroppedLast(t, i);
    }
  }

  lemma DroppedIsDistinct(t: seq<Rule>, i: nat)
    requires i < |t| && Distinct(Names(t))
    ensures Distinct(Names(Dropped(t, i)))
  {
    var names, after := Names(t), Names(Dropped(t, i));
    assert forall k :: 0 <= k < |after| ==> after[k] == names[if k < i then k else k + 1];
  }

  lemma DroppedLast(t: seq<Rule>, i: nat)
    requires i < |t| - 1
    ensures |Dropped(t, i)| == |t| - 1 && Dropped(t, i)[|t| - 2] == t[|t| - 1]
  {
  }

  lemma RemoveServes(t: seq<Rule>, hostname: string, other: string)
    requires WellShaped(t) && hostname != "" && other != ""
    ensures Serves(RemoveRules(t, hostname), other) == if other == hostname then None else Serves(t, other)
  {
    RemovedTable(t, hostname);
    if t == [] {
      return;
    }
    CatchAllIsLast(t);
    hide First;
    hide RemoveRules;
    if First(t, hostname) < |t| {
      ServesDropped(t, First(t, hostname), other);
    }
  }

  lemma ServesDropped(t: seq<Rule>, i: nat, other: string)
    requires Distinct(Names(t)) && i < |t| - 1
    ensures Serves(Dropped(t, i), other) == if First(t, other) == i then None else Serves(t, other)
  {
    hide First;
    hide Names;
    hide Distinct;
    hide Dropped;
    FirstDropped(t, i, other);
    var k := First(Dropped(t, i), other);
    DroppedAt(t, i, if k < |t| - 1 then k else |t| - 2);
  }

  lemma RemoveKeepsOtherRoutes(t: seq<Rule>, hostname: string, other: string)
    requires WellShaped(t) && t != [] && hostname != "" && other != ""
    ensures Route(RemoveRules(t, hostname), other) == if other == hostname then Some(t[|t| - 1]) else Route(t, other)
  {
    RemovedTable(t, hostname);
    RemoveKeepsShape(t, hostname);
    RouteInShape(t, other);
    RouteInShape(RemoveRules(t, hostname), other);
    CatchAllIsLast(t);
    var i := First(t, hostname);
    if i < |t| {
      RuleForDropped(t, i, other);
    }
  }

  /** Taking out a rule that is not the last leaves every other hostname its rule. */
  lemma RuleForDropped(t: seq<Rule>, i: nat, other: string)
    requires Distinct(Names(t)) && i < |t| - 1
    ensures RuleFor(Dropped(t, i), other) == if First(t, other) == i then t[|t| - 1] else RuleFor(t, other)
  {
    hide First;
    hide Names;
    hide Distinct;
    hide Dropped;
    FirstDropped(t, i, other);
    var j, k := First(t, other), First(Dropped(t, i), other);
    DroppedAt(t, i, if k < |t| - 1 then k else |t| - 2);
  }

  lemma DroppedAt(t: seq<Rule>, i: nat, k: nat)
    requires i < |t| && k < |t| - 1
    ensures |Dropped(t, i)| == |t| - 1 && Dropped(t, i)[k] == t[if k < i then k else k + 1]
  {
  }

  /** A second request for the same route finds nothing to update, whatever the table. */
  lemma EnsureTwiceUpdatesOnce(t: seq<Rule>, hostname: string, d: Dest)
    requires hostname != ""
    ensures EnsureRules(EnsureRules(t, hostname, d), hostname, d) == EnsureRules(t, hostname, d)
  {
    var rule := Rule(hostname, d.service, OriginFor(d), "");
    var i, c := First(t, hostname), First(t, "");
    if i < |t| {
      FirstUpdated(t, i, t[i].(service := d.service, origin := OriginFor(d)), hostname);
    } else if c < |t| {
      FirstInserted(t, c, rule, hostname);
    } else {
      NoneBefore(t, hostname);
      FirstIs(t + [rule, NOT_FOUND], hostname, |t|);
    }
  }

  /** On a table without the hostname, removing undoes adding exactly when there was a rule for everything else. */
  lemma RemoveUndoesEnsure(t: seq<Rule>, hostname: string, d: Dest)
    requires hostname != "" && First(t, hostname) == |t|
    ensures RemoveRules(EnsureRules(t, hostname, d), hostname) == t <==> First(t, "") < |t|
  {
    var rule := Rule(hostname, d.service, OriginFor(d), "");
    var c := First(t, "");
    WithoutMissing(t, hostname);
    if c < |t| {
      WithoutInserted(t, c, rule);
    } else {
      WithoutPushed(t, rule);
      assert |t + [NOT_FOUND]| != |t|;
    }
  }

  lemma WithoutPushed(t: seq<Rule>, rule: Rule)
    requires rule.hostname != "" && First(t, rule.hostname) == |t| && First(t, "") == |t|
    ensures Without(t + [rule, NOT_FOUND], rule.hostname) == t + [NOT_FOUND]
    ensures First(t + [NOT_FOUND], "") == |t|
  {
    WithoutMissing(t, rule.hostname);
    WithoutAppend(t, [rule, NOT_FOUND], rule.hostname);
    WithoutPair(rule);
    CatchAllPushed(t);
  }

  lemma WithoutPair(rule: Rule)
    requires rule.hostname != ""
    ensures Without([rule, NOT_FOUND], rule.hostname) == [NOT_FOUND]
  {
    assert [rule, NOT_FOUND][1..] == [NOT_FOUND];
    assert [NOT_FOUND][1..] == [];
    assert Without([NOT_FOUND], rule.hostname) == [NOT_FOUND];
  }

  lemma CatchAllPushed(t: seq<Rule>)
    requires First(t, "") == |t|
    ensures First(t + [NOT_FOUND], "") == |t|
  {
    NoneBefore(t, "");
    FirstIs(t + [NOT_FOUND], "", |t|);
  }

  lemma {:induction false} WithoutInserted(t: seq<Rule>, c: nat, rule: Rule)
    requires c <= |t|
    ensures Without(Inserted(t, c, rule), rule.hostname) == Without(t, rule.hostname)
  {
    var after := Inserted(t, c, rule);
    if c == 0 {
      assert after[1..] == t;
    } else {
      WithoutInserted(t[1..], c - 1, rule);
      assert after[1..] == Inserted(t[1..], c - 1, rule);
    }
  }

  // ----- DNS -----

  function TunnelName(tunnel: string): string {
    tunnel + ".cfargotunnel.com"
  }

  /** The record leads into this tunnel. */
  predicate Owned(tunnel: string, r: Record) {
    r.kind == "CNAME" && Lower(r.content) == TunnelName(tunnel)
  }

  predicate IsFor(r: Record, hostname: string) {
    Lower(r.name) == Lower(hostname)
  }

  function FindName(rs: seq<Record>, hostname: string): (i: nat)
    ensures i <= |rs| && (i < |rs| ==> IsFor(rs[i], hostname))
    ensures forall k :: 0 <= k < i ==> !IsFor(rs[k], hostname)
  {
    if rs == [] || IsFor(rs[0], hostname) then 0 else 1 + FindName(rs[1..], hostname)
  }

  function FindOwned(rs: seq<Record>, tunnel: string, hostname: string): (i: nat)
    ensures i <= |rs| && (i < |rs| ==> IsFor(rs[i], hostname) && Owned(tunnel, rs[i]))
    ensures forall k :: 0 <= k < i ==> !(IsFor(rs[k], hostname) && Owned(tunnel, rs[k]))
  {
    if rs == [] || (IsFor(rs[0], hostname) && Owned(tunnel, rs[0])) then 0 else 1 + FindOwned(rs[1..], tunnel, hostname)
  }

  function NewRecord(tunnel: string, hostname: string, id: string): Record {
    Record(id, "CNAME", hostname, TunnelName(tunnel), true)
  }

  function EnsureDns(rs: seq<Record>, tunnel: string, hostname: string, id: string): seq<Record> {
    if FindName(rs, hostname) < |rs| then rs else rs + [NewRecord(tunnel, hostname, id)]
  }

  function EnsureDnsAnswer(rs: seq<Record>, tunnel: string, hostname: string, id: string): Result<string> {
    var i := FindName(rs, hostname);
    if i == |rs| then Ok(id)
    else if Owned(tunnel, rs[i]) then Ok(rs[i].id)
    else Err("already exists and is not managed by this tunnel")
  }

  function RemoveDns(rs: seq<Record>, tunnel: string, hostname: string): seq<Record> {
    var i := FindOwned(rs, tunnel, hostname);
    if i == |rs| then rs else rs[..i] + rs[i + 1..]
  }

  /** The records that lead elsewhere, in order. */
  function Foreign(rs: seq<Record>, tunnel: string): seq<Record> {
    if rs == [] then [] else (if !Owned(tunnel, rs[0]) then [rs[0]] else []) + Foreign(rs[1..], tunnel)
  }

  lemma {:induction false} ForeignAppend(a: seq<Record>, b: seq<Record>, tunnel: string)
    ensures Foreign(a + b, tunnel) == Foreign(a, tunnel) + Foreign(b, tunnel)
  {
    hide Owned;
    if a == [] {
      assert a + b == b;
    } else {
      ForeignAppend(a[1..], b, tunnel);
      assert (a + b)[0] == a[0] && (a + b)[1..] == a[1..] + b;
      Assoc(if !Owned(tunnel, a[0]) then [a[0]] else [], Foreign(a[1..], tunnel), Foreign(b, tunnel));
    }
  }

  /** A tunnel's own name is recognised exactly when it has no capital letters. */
  lemma OwnsItsName(tunnel: string, hostname: string, id: string)
    ensures Owned(tunnel, NewRecord(tunnel, hostname, id)) <==> Lower(tunnel) == tunnel
  {
    var name := TunnelName(tunnel);
    assert |Lower(name)| == |name|;
    forall i | 0 <= i < |tunnel| ensures Lower(name)[i] == Lower(tunnel)[i] && name[i] == tunnel[i] {
    }
    forall i | |tunnel| <= i < |name| ensures Lower(name)[i] == name[i] {
    }
    if Lower(name) == name {
      assert forall i :: 0 <= i < |tunnel| ==> Lower(tunnel)[i] == tunnel[i];
    }
    if Lower(tunnel) == tunnel {
      assert forall i :: 0 <= i < |name| ==> Lower(name)[i] == name[i];
    }
  }

  lemma NewIs(tunnel: string, hostname: string, id: string)
    ensures NewRecord(tunnel, hostname, id) == Record(id, "CNAME", hostname, tunnel + ".cfargotunnel.com", true)
  {
  }

  lemma NewIsFor(tunnel: string, hostname: string, id: string)
    ensures IsFor(NewRecord(tunnel, hostname, id), hostname)
  {
  }

  lemma {:induction false} FindNameAppended(rs: seq<Record>, tunnel: string, hostname: string, id: string)
    requires FindName(rs, hostname) == |rs|
    ensures FindName(rs + [NewRecord(tunnel, hostname, id)], hostname) == |rs|
  {
    hide NewRecord;
    hide IsFor;
    var record := NewRecord(tunnel, hostname, id);
    if rs == [] {
      assert [] + [record] == [record];
      NewIsFor(tunnel, hostname, id);
    } else {
      FindNameAppended(rs[1..], tunnel, hostname, id);
      assert (rs + [record])[1..] == rs[1..] + [record];
    }
  }

  /**
   * The record just created is found again by a repeated request, and deleted by a removal, exactly when the
   * configured tunnel id is in lower case; otherwise both the repeat and the clean-up pass it by.
   */
  lemma DnsIsRepeatableIffLowerCase(rs: seq<Record>, tunnel: string, hostname: string, id: string, again: string)
    requires FindName(rs, hostname) == |rs|
    ensures var created := EnsureDns(rs, tunnel, hostname, id);
            && (EnsureDnsAnswer(created, tunnel, hostname, again) == Ok(id) <==> Lower(tunnel) == tunnel)
            && (RemoveDns(created, tunnel, hostname) == rs <==> Lower(tunnel) == tunnel)
  {
    var record := NewRecord(tunnel, hostname, id);
    var created := rs + [record];
    FindNameAppended(rs, tunnel, hostname, id);
    OwnsItsName(tunnel, hostname, id);
    hide Owned;
    var i := FindOwned(created, tunnel, hostname);
    assert forall k :: 0 <= k < |rs| ==> created[k] == rs[k] && !IsFor(rs[k], hostname);
    assert created[|rs|] == record;
    assert i >= |rs|;
    if i == |rs| {
      assert created[..i] + created[i + 1..] == rs;
    } else {
      assert |RemoveDns(created, tunnel, hostname)| == |rs| + 1;
    }
  }

  /**
   * Asking for a hostname's record never alters or drops one. With a record of that name in place the answer is
   * that record if it leads into this tunnel and a refusal if not; without one a record is added that does, for
   * a tunnel id in lower case.
   */
  lemma DnsRequestIsSafe(rs: seq<Record>, tunnel: string, hostname: string, id: string)
    ensures var after, answer := EnsureDns(rs, tunnel, hostname, id), EnsureDnsAnswer(rs, tunnel, hostname, id);
            && rs <= after && (exists r :: r in after && IsFor(r, hostname))
            && (after != rs <==> forall r <- rs :: !IsFor(r, hostname))
            && (after != rs ==> answer == Ok(id) && after == rs + [Record(id, "CNAME", hostname, tunnel + ".cfargotunnel.com", true)]
                                && IsFor(after[|rs|], hostname)
                                && (Lower(tunnel) == tunnel ==> Owned(tunnel, after[|rs|])))
            && (after == rs && answer.Ok? ==> exists r <- rs :: IsFor(r, hostname) && Owned(tunnel, r) && r.id == answer.value)
            && (answer.Err? ==> after == rs && exists r <- rs :: IsFor(r, hostname) && !Owned(tunnel, r))
  {
    OwnsItsName(tunnel, hostname, id);
    NewIsFor(tunnel, hostname, id);
    NewIs(tunnel, hostname, id);
    hide Owned;
    hide IsFor;
    hide NewRecord;
    hide Lower;
    var i := FindName(rs, hostname);
    var after := EnsureDns(rs, tunnel, hostname, id);
    if i < |rs| {
      assert rs[i] in after;
    } else {
      assert NewRecord(tunnel, hostname, id) == after[|rs|];
      NewHasId(tunnel, hostname, id);
    }
  }

  lemma NewHasId(tunnel: string, hostname: string, id: string)
    ensures NewRecord(tunnel, hostname, id).id == id
  {
  }

  // ----- Runs of requests, each of which may stop half-way -----

  /** How far a request got: nothing written, the routing table only, or everything. */
  datatype Stop = AtStart | AfterTunnel | Completed

  datatype Request =
    | Ensure(hostname: string, dest: Dest, newId: string, stop: Stop)
    | Remove(hostname: string, stop: Stop)

  function Serve(w: World, tunnel: string, r: Request): World {
    if r.stop.AtStart? then w
    else
      match r
      case Ensure(h, d, id, stop) =>
        World(EnsureRules(w.ingress, h, d), if stop.Completed? then EnsureDns(w.records, tunnel, h, id) else w.records)
      case Remove(h, stop) =>
        World(RemoveRules(w.ingress, h), if stop.Completed? then RemoveDns(w.records, tunnel, h) else w.records)
  }

  function Run(w: World, tunnel: string, rs: seq<Request>): World {
    if rs == [] then w else Serve(Run(w, tunnel, rs[..|rs| - 1]), tunnel, rs[|rs| - 1])
  }

  /** What a hostname should lead to after the requests, given what it led to before. */
  function Wanted(start: Option<Dest>, hostname: string, rs: seq<Request>): Option<Dest> {
    if rs == [] then start
    else
      var r := rs[|rs| - 1];
      if r.stop.AtStart? || r.hostname != hostname then Wanted(start, hostname, rs[..|rs| - 1])
      else if r.Ensure? then Some(r.dest)
      else None
  }

  predicate Proper(rs: seq<Request>) {
    forall r <- rs :: r.hostname != ""
  }

  /**
   * The table is a faithful map from hostnames to destinations: after any run of requests, stopped anywhere,
   * it is well shaped, every hostname leads where the last request that reached the table said, and the rule
   * for everything else is the one it had. A table nobody added to stays empty.
   */
  lemma {:induction false} TableRefinesMap(w: World, tunnel: string, rs: seq<Request>, hostname: string)
    requires WellShaped(w.ingress) && Proper(rs) && hostname != ""
    ensures var t := Run(w, tunnel, rs).ingress;
            && WellShaped(t)
            && Serves(t, hostname) == Wanted(Serves(w.ingress, hostname), hostname, rs)
            && (w.ingress != [] ==> t != [] && t[|t| - 1] == w.ingress[|w.ingress| - 1])
            && (w.ingress == [] && (forall r <- rs :: r.Remove? || r.stop.AtStart?) ==> t == [])
  {
    hide EnsureRules;
    hide RemoveRules;
    hide Serves;
    hide WellShaped;
    if rs != [] {
      var init, r := rs[..|rs| - 1], rs[|rs| - 1];
      assert r in rs;
      assert forall x <- init :: x in rs;
      TableRefinesMap(w, tunnel, init, hostname);
      var t := Run(w, tunnel, init).ingress;
      if r.Ensure? {
        EnsureKeepsShape(t, r.hostname, r.dest);
        EnsureServes(t, r.hostname, r.dest, hostname);
      } else {
        RemoveKeepsShape(t, r.hostname);
        RemoveServes(t, r.hostname, hostname);
      }
    }
  }

  lemma EnsureDnsKeepsForeign(rs: seq<Record>, tunnel: string, hostname: string, id: string)
    ensures Foreign(rs, tunnel) <= Foreign(EnsureDns(rs, tunnel, hostname, id), tunnel)
    ensures Lower(tunnel) == tunnel ==> Foreign(EnsureDns(rs, tunnel, hostname, id), tunnel) == Foreign(rs, tunnel)
  {
    var record := NewRecord(tunnel, hostname, id);
    ForeignAppend(rs, [record], tunnel);
    OwnsItsName(tunnel, hostname, id);
  }

  lemma RemoveDnsKeepsForeign(rs: seq<Record>, tunnel: string, hostname: string)
    ensures Foreign(RemoveDns(rs, tunnel, hostname), tunnel) == Foreign(rs, tunnel)
  {
    hide Owned;
    hide IsFor;
    var i := FindOwned(rs, tunnel, hostname);
    if i < |rs| {
      assert rs == rs[..i] + [rs[i]] + rs[i + 1..];
      ForeignAppend(rs[..i] + [rs[i]], rs[i + 1..], tunnel);
      ForeignAppend(rs[..i], [rs[i]], tunnel);
      ForeignAppend(rs[..i], rs[i + 1..], tunnel);
      assert Foreign([rs[i]], tunnel) == [];
    }
  }

  /** No run ever alters or drops a DNS record that leads elsewhere. */
  lemma {:induction false} ForeignRecordsAreKept(w: World, tunnel: string, rs: seq<Request>)
    ensures Foreign(w.records, tunnel) <= Foreign(Run(w, tunnel, rs).records, tunnel)
    ensures Lower(tunnel) == tunnel ==> Foreign(Run(w, tunnel, rs).records, tunnel) == Foreign(w.records, tunnel)
  {
    hide Foreign;
    hide Lower;
    hide EnsureDns;
    hide RemoveDns;
    if rs != [] {
      var init, r := rs[..|rs| - 1], rs[|rs| - 1];
      ForeignRecordsAreKept(w, tunnel, init);
      var records := Run(w, tunnel, init).records;
      if r.Ensure? {
        EnsureDnsKeepsForeign(records, tunnel, r.hostname, r.newId);
      } else {
        RemoveDnsKeepsForeign(records, tunnel, r.hostname);
      }
    }
  }

  lemma RemoveRulesTwice(t: seq<Rule>, hostname: string)
    requires hostname != ""
    ensures RemoveRules(RemoveRules(t, hostname), hostname) == RemoveRules(t, hostname)
  {
    WithoutTwice(t, hostname);
    var remaining := Without(t, hostname);
    WithoutMissing(t, hostname);
    WithoutMissing(remaining, hostname);
    WithoutAppend(remaining, [NOT_FOUND], hostname);
    assert Without([NOT_FOUND], hostname) == [NOT_FOUND] + Without([], hostname);
  }

  lemma {:induction false} WithoutTwice(t: seq<Rule>, hostname: string)
    ensures Without(Without(t, hostname), hostname) == Without(t, hostname)
  {
    if t != [] {
      WithoutTwice(t[1..], hostname);
      var rest := Without(t[1..], hostname);
      if t[0].hostname != hostname {
        assert ([t[0]] + rest)[1..] == rest;
      } else {
        assert [] + rest == rest;
      }
    }
  }

  /** How many records of a name lead into the tunnel. */
  function OwnRecords(rs: seq<Record>, tunnel: string, hostname: string): nat {
    if rs == [] then 0
    else (if IsFor(rs[0], hostname) && Owned(tunnel, rs[0]) then 1 else 0) + OwnRecords(rs[1..], tunnel, hostname)
  }

  lemma {:induction false} RemovedRecords(rs: seq<Record>, tunnel: string, hostname: string)
    ensures OwnRecords(rs, tunnel, hostname) == 0 <==> FindOwned(rs, tunnel, hostname) == |rs|
    ensures OwnRecords(RemoveDns(rs, tunnel, hostname), tunnel, hostname) ==
            if OwnRecords(rs, tunnel, hostname) == 0 then 0 else OwnRecords(rs, tunnel, hostname) - 1
    ensures |RemoveDns(rs, tunnel, hostname)| == |rs| - if OwnRecords(rs, tunnel, hostname) == 0 then 0 else 1
  {
    hide Owned;
    hide IsFor;
    if rs != [] {
      RemovedRecords(rs[1..], tunnel, hostname);
      var after := RemoveDns(rs, tunnel, hostname);
      if IsFor(rs[0], hostname) && Owned(tunnel, rs[0]) {
        assert after == rs[1..];
      } else {
        assert after == [rs[0]] + RemoveDns(rs[1..], tunnel, hostname);
      }
    }
  }

  /** A second removal finds nothing left exactly when there was at most one record of its own. */
  lemma RemoveDnsTwiceIff(rs: seq<Record>, tunnel: string, hostname: string)
    ensures RemoveDns(RemoveDns(rs, tunnel, hostname), tunnel, hostname) == RemoveDns(rs, tunnel, hostname) <==>
            OwnRecords(rs, tunnel, hostname) <= 1
  {
    hide Owned;
    hide IsFor;
    var after := RemoveDns(rs, tunnel, hostname);
    RemovedRecords(rs, tunnel, hostname);
    RemovedRecords(after, tunnel, hostname);
    hide OwnRecords;
    if OwnRecords(rs, tunnel, hostname) <= 1 {
      assert FindOwned(after, tunnel, hostname) == |after|;
    }
  }

  lemma EnsureDnsTwice(rs: seq<Record>, tunnel: string, hostname: string, id: string)
    ensures EnsureDns(EnsureDns(rs, tunnel, hostname, id), tunnel, hostname, id) == EnsureDns(rs, tunnel, hostname, id)
  {
    hide IsFor;
    hide NewRecord;
    if FindName(rs, hostname) == |rs| {
      FindNameAppended(rs, tunnel, hostname, id);
    }
  }

  /**
   * Re-running a request ends where one uninterrupted run would have: always if it stopped before or between its
   * writes, always for an added route, and for a removal that had completed exactly when the name had at most one
   * record that leads into the tunnel; of several, each run deletes one.
   */
  lemma RerunCompletesIff(w: World, tunnel: string, r: Request, stop: Stop)
    requires r.hostname != "" && r.stop.Completed?
    ensures Serve(Serve(w, tunnel, r.(stop := stop)), tunnel, r) == Serve(w, tunnel, r) <==>
            !stop.Completed? || r.Ensure? || OwnRecords(w.records, tunnel, r.hostname) <= 1
  {
    hide EnsureRules;
    hide RemoveRules;
    hide EnsureDns;
    hide RemoveDns;
    if r.Ensure? {
      EnsureTwiceUpdatesOnce(w.ingress, r.hostname, r.dest);
      EnsureDnsTwice(w.records, tunnel, r.hostname, r.newId);
    } else {
      RemoveRulesTwice(w.ingress, r.hostname);
      RemoveDnsTwiceIff(w.records, tunnel, r.hostname);
    }
  }

  /** A name with two records of the tunnel, such as one asked for twice at a time: a repeated removal deletes both. */
  lemma SecondRemovalDeletesTheOther(ingress: seq<Rule>, tunnel: string, hostname: string, a: string, b: string)
    requires hostname != "" && Lower(tunnel) == tunnel
    ensures var w := World(ingress, [NewRecord(tunnel, hostname, a), NewRecord(tunnel, hostname, b)]);
            var r := Remove(hostname, Completed);
            && Serve(w, tunnel, r).records == [NewRecord(tunnel, hostname, b)]
            && Serve(Serve(w, tunnel, r), tunnel, r).records == []
  {
    OwnsItsName(tunnel, hostname, a);
    OwnsItsName(tunnel, hostname, b);
    NewIsFor(tunnel, hostname, a);
    NewIsFor(tunnel, hostname, b);
    hide NewRecord;
    hide Owned;
    hide IsFor;
    hide RemoveRules;
    var one, two := NewRecord(tunnel, hostname, a), NewRecord(tunnel, hostname, b);
    assert [one, two][0] == one && [one, two][1..] == [two] && [two][1..] == [];
  }

  // ----- The remote side, edited step by step -----

  class Cloudflare {
    var ingress: seq<Rule>
    var records: seq<Record>

    constructor (ingress: seq<Rule>, records: seq<Record>)
      ensures this.ingress == ingress && this.records == records
    {
      this.ingress, this.records := ingress, records;
    }

    ghost function State(): World
      reads this
    {
      World(ingress, records)
    }

    method EnsureTunnelDnsRecord(tunnel: string, hostname: string, newId: string) returns (id: Result<string>)
      modifies this`records
      ensures id == EnsureDnsAnswer(old(records), tunnel, hostname, newId)
      ensures records == EnsureDns(old(records), tunnel, hostname, newId)
      ensures old(records) <= records && exists r :: r in records && IsFor(r, hostname)
      ensures id.Err? ==> records == old(records) && exists r <- records :: IsFor(r, hostname) && !Owned(tunnel, r)
    {
      DnsRequestIsSafe(records, tunnel, hostname, newId);
      var i := FindName(records, hostname);
      if i < |records| {
        if Owned(tunnel, records[i]) {
          return Ok(records[i].id);
        }
        return Err("already exists and is not managed by this tunnel");
      }
      records := records + [NewRecord(tunnel, hostname, newId)];
      return Ok(newId);
    }

    /** Stops after the table's write when `dnsReached` is false. */
    method EnsureIngressRoute(tunnel: string, hostname: string, d: Dest, newId: string, dnsReached: bool)
      returns (updated: bool, dnsRecordId: Result<string>)
      requires hostname != ""
      modifies this
      ensures State() == Serve(old(State()), tunnel, Ensure(hostname, d, newId, if dnsReached then Completed else AfterTunnel))
      ensures updated <==> Serves(old(ingress), hostname) != Some(d)
      ensures dnsReached ==> dnsRecordId == EnsureDnsAnswer(old(records), tunnel, hostname, newId)
      ensures !dnsReached ==> dnsRecordId.Err?
    {
      var table := ingress;
      var existing := First(table, hostname);
      var rule := Rule(hostname, d.service, OriginFor(d), "");
      updated := false;
      if existing < |table| {
        if DestOf(table[existing]) != d {
          table := table[existing := rule.(extra := table[existing].extra)];
          updated := true;
        }
      } else {
        var catchAll := First(table, "");
        if catchAll < |table| {
          table := table[..catchAll] + [rule] + table[catchAll..];
        } else {
          table := table + [rule, NOT_FOUND];
        }
        updated := true;
      }
      if updated {
        ingress := table;
      }
      if !dnsReached {
        return updated, Err("stopped");
      }
      dnsRecordId := EnsureTunnelDnsRecord(tunnel, hostname, newId);
    }

    /** Stops after the table's write when `dnsReached` is false. */
    method RemoveIngressRoute(tunnel: string, hostname: string, dnsReached: bool)
      returns (ingressRemoved: bool, dnsRemoved: bool)
      requires hostname != ""
      modifies this
      ensures State() == Serve(old(State()), tunnel, Remove(hostname, if dnsReached then Completed else AfterTunnel))
      ensures ingressRemoved <==> Serves(old(ingress), hostname).Some?
      ensures dnsRemoved <==> dnsReached && exists r <- old(records) :: IsFor(r, hostname) && Owned(tunnel, r)
    {
      ingressRemoved, dnsRemoved := false, false;
      var remaining := Without(ingress, hostname);
      WithoutMissing(ingress, hostname);
      if |remaining| != |ingress| {
        if First(remaining, "") == |remaining| {
          remaining := remaining + [NOT_FOUND];
        }
        ingress := remaining;
        ingressRemoved := true;
      }
      if dnsReached {
        var owned := FindOwned(records, tunnel, hostname);
        if owned < |records| {
          records := records[..owned] + records[owned + 1..];
          dnsRemoved := true;
        }
      }
    }
  }
}
