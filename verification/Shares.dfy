/**
 * Price Compare's sharing grants (apps/price-compare/app/shares.js): invites addressed to an email, bound
 * to an account at login, accepted or declined by the addressee, and torn down by either side.
 */
module Shares {
  import opened Common
  import opened Strings

  datatype Status = Pending | Accepted | Declined | Revoked

  datatype Row = Row(
    id: string, owner: string, ownerEmail: string, ownerName: Option<string>, inviteeEmail: string,
    invitee: Option<string>, status: Status, createdAt: int, respondedAt: Option<int>)

  datatype User = User(sub: string, email: string, name: string)

  function Normalise(email: string): string {
    Lower(Trim(email))
  }

  predicate Part(s: string) {
    s != "" && forall c <- s :: !Blank(c) && c != '@'
  }

  /** An address `local@host.domain` whose parts hold no blank and no further `@`. */
  predicate ValidEmail(e: string) {
    exists at, dot :: 0 <= at < dot < |e| && e[at] == '@' && e[dot] == '.'
      && Part(e[..at]) && Part(e[at + 1..dot]) && Part(e[dot + 1..])
  }

  predicate Active(s: Status) {
    s == Pending || s == Accepted
  }

  /** The first row that meets the predicate; `|rows|` when there is none. */
  function Find(rows: seq<Row>, p: Row -> bool): (i: nat)
    ensures i <= |rows| && (i < |rows| ==> p(rows[i]))
    ensures forall k :: 0 <= k < i ==> !p(rows[k])
  {
    if rows == [] || p(rows[0]) then 0 else 1 + Find(rows[1..], p)
  }

  function ById(rows: seq<Row>, id: string): (i: nat)
    ensures i <= |rows| && (i < |rows| ==> rows[i].id == id)
    ensures forall k :: 0 <= k < i ==> rows[k].id != id
  {
    Find(rows, (r: Row) => r.id == id)
  }

  predicate Occupies(r: Row, owner: string, email: string) {
    r.owner == owner && r.inviteeEmail == email && Active(r.status)
  }

  function Duplicate(rows: seq<Row>, owner: string, email: string): (i: nat)
    ensures i <= |rows| && (i < |rows| ==> Occupies(rows[i], owner, email))
    ensures forall k :: 0 <= k < i ==> !Occupies(rows[k], owner, email)
  {
    Find(rows, (r: Row) => Occupies(r, owner, email))
  }

  /** The user the invite is bound to, or whose address it carries while it is not bound to anyone. */
  predicate Addresses(r: Row, user: User) {
    r.invitee == Some(user.sub) || (r.invitee.None? && r.inviteeEmail == Normalise(user.email))
  }

  datatype Event =
    | Invite(id: string, owner: User, email: string, at: int)
    | Respond(id: string, who: User, accept: bool, at: int)
    | Remove(id: string, sub: string, at: int)
    | Login(user: User)

  datatype Refusal = InvalidEmail | OwnEmail | AlreadyShared | AlreadyInvited | NotFound | AlreadyAnswered

  function Refused(rows: seq<Row>, e: Event): Option<Refusal> {
    match e
    case Invite(_, owner, email, _) =>
      var dup := Duplicate(rows, owner.sub, Normalise(email));
      if !ValidEmail(Normalise(email)) then Some(InvalidEmail)
      else if Normalise(email) == Normalise(owner.email) then Some(OwnEmail)
      else if dup == |rows| then None
      else if rows[dup].status == Accepted then Some(AlreadyShared)
      else Some(AlreadyInvited)
    case Respond(id, who, _, _) =>
      var i := ById(rows, id);
      if i == |rows| || !Addresses(rows[i], who) then Some(NotFound)
      else if rows[i].status != Pending then Some(AlreadyAnswered)
      else None
    case Remove(id, sub, _) =>
      var i := ById(rows, id);
      if i == |rows| || (sub != rows[i].owner && Some(sub) != rows[i].invitee) then Some(NotFound) else None
    case Login(_) => None
  }

  function Invited(id: string, owner: User, email: string, at: int): Row {
    var name := if owner.name != "" then Some(owner.name) else if owner.email != "" then Some(owner.email) else None;
    Row(id, owner.sub, Normalise(owner.email), name, Normalise(email), None, Pending, at, None)
  }

  function Responded(r: Row, who: User, accept: bool, at: int): Row {
    r.(status := if accept then Accepted else Declined,
       invitee := if accept then Some(who.sub) else r.invitee,
       respondedAt := Some(at))
  }

  function Removed(r: Row, at: int): Row {
    r.(status := Revoked, respondedAt := if r.respondedAt.Some? then r.respondedAt else Some(at))
  }

  function Bound(r: Row, user: User): Row {
    if r.invitee.None? && r.inviteeEmail == Normalise(user.email) && Active(r.status) then r.(invitee := Some(user.sub)) else r
  }

  function BindAll(rows: seq<Row>, user: User): seq<Row> {
    seq(|rows|, i requires 0 <= i < |rows| => Bound(rows[i], user))
  }

  function Step(rows: seq<Row>, e: Event): seq<Row> {
    if Refused(rows, e).Some? then rows
    else
      match e
      case Invite(id, owner, email, at) => rows + [Invited(id, owner, email, at)]
      case Respond(id, who, accept, at) => var i := ById(rows, id); rows[i := Responded(rows[i], who, accept, at)]
      case Remove(id, _, at) => var i := ById(rows, id); rows[i := Removed(rows[i], at)]
      case Login(user) => BindAll(rows, user)
  }

  /** The table after a history, from an empty file. */
  function Run(es: seq<Event>): seq<Row> {
    if es == [] then [] else Step(Run(es[..|es| - 1]), es[|es| - 1])
  }

  /** Invites get identifiers nobody used before. */
  predicate FreshIds(es: seq<Event>) {
    forall i, j :: 0 <= i < j < |es| && es[i].Invite? && es[j].Invite? ==> es[i].id != es[j].id
  }

  predicate IsSharedWith(rows: seq<Row>, owner: string, viewer: string) {
    exists r <- rows :: r.status == Accepted && r.owner == owner && r.invitee == Some(viewer)
  }

  predicate IsShared(rows: seq<Row>, owner: string) {
    exists r <- rows :: r.status == Accepted && r.owner == owner
  }

  // ----- What every reachable table keeps -----

  predicate UniqueIds(rows: seq<Row>) {
    forall i, j :: 0 <= i < j < |rows| ==> rows[i].id != rows[j].id
  }

  /** At most one pending or accepted invite of an owner to an address. */
  predicate OneLivePerSlot(rows: seq<Row>) {
    forall i, j :: 0 <= i < j < |rows| && Active(rows[i].status) && Active(rows[j].status) ==>
      rows[i].owner != rows[j].owner || rows[i].inviteeEmail != rows[j].inviteeEmail
  }

  predicate WellKept(r: Row) {
    (r.status == Accepted ==> r.invitee.Some?) && (r.respondedAt.None? <==> r.status == Pending)
  }

  predicate Valid(rows: seq<Row>) {
    UniqueIds(rows) && OneLivePerSlot(rows) && forall r <- rows :: WellKept(r)
  }

  /** The moves a status may make. */
  predicate Moves(a: Status, b: Status) {
    a == b || b == Revoked || (a == Pending && (b == Accepted || b == Declined))
  }

  /** What may become of a row: its terms stay, a bound invitee and an answer's time stamp stay. */
  predicate Evolves(a: Row, b: Row) {
    && b.id == a.id && b.owner == a.owner && b.ownerEmail == a.ownerEmail && b.ownerName == a.ownerName
    && b.inviteeEmail == a.inviteeEmail && b.createdAt == a.createdAt
    && Moves(a.status, b.status)
    && (a.invitee.Some? ==> b.invitee == a.invitee)
    && (a.status != Pending ==> b.respondedAt == a.respondedAt)
  }

  lemma StepEvolves(rows: seq<Row>, e: Event)
    requires forall r <- rows :: WellKept(r)
    ensures |rows| <= |Step(rows, e)| <= |rows| + 1
    ensures forall i :: 0 <= i < |rows| ==> Evolves(rows[i], Step(rows, e)[i])
    ensures forall r <- Step(rows, e) :: WellKept(r)
    ensures |Step(rows, e)| > |rows| ==>
              e.Invite? && Refused(rows, e).None? && Step(rows, e)[|rows|] == Invited(e.id, e.owner, e.email, e.at)
  {
    hide ValidEmail;
    hide Normalise;
    if e.Respond? && Refused(rows, e).None? {
      RowEvolves(rows[ById(rows, e.id)], e.who, e.accept, e.at);
    } else if e.Remove? && Refused(rows, e).None? {
      RowEvolves(rows[ById(rows, e.id)], User("", "", ""), false, e.at);
    } else if e.Login? {
      forall i | 0 <= i < |rows| ensures WellKept(Step(rows, e)[i]) {
        assert rows[i] in rows;
        RowEvolves(rows[i], e.user, false, 0);
      }
    }
  }

  lemma RowEvolves(r: Row, who: User, accept: bool, at: int)
    requires WellKept(r)
    ensures Evolves(r, Removed(r, at)) && WellKept(Removed(r, at))
    ensures r.status == Pending && Addresses(r, who) ==>
              Evolves(r, Responded(r, who, accept, at)) && WellKept(Responded(r, who, accept, at))
    ensures Evolves(r, Bound(r, who)) && WellKept(Bound(r, who))
  {
  }

  /** Rows are never dropped or reordered, and evolve lawfully over any stretch of history. */
  lemma {:induction false} HistoryEvolves(es: seq<Event>, k: nat)
    requires k <= |es|
    ensures |Run(es[..k])| <= |Run(es)|
    ensures forall i :: 0 <= i < |Run(es[..k])| ==> Evolves(Run(es[..k])[i], Run(es)[i])
    ensures forall r <- Run(es) :: WellKept(r)
  {
    hide Step;
    hide WellKept;
    if k < |es| {
      assert es[..|es| - 1][..k] == es[..k];
      HistoryEvolves(es[..|es| - 1], k);
      StepEvolves(Run(es[..|es| - 1]), es[|es| - 1]);
      forall i | 0 <= i < |Run(es[..k])|
        ensures Evolves(Run(es[..k])[i], Run(es)[i])
      {
        assert Evolves(Run(es[..k])[i], Run(es[..|es| - 1])[i]);
      }
    } else {
      assert es[..k] == es;
      AllWellKept(es);
    }
  }

  lemma {:induction false} AllWellKept(es: seq<Event>)
    ensures forall r <- Run(es) :: WellKept(r)
  {
    if es != [] {
      AllWellKept(es[..|es| - 1]);
      StepEvolves(Run(es[..|es| - 1]), es[|es| - 1]);
    }
  }

  lemma StepKeepsSlots(rows: seq<Row>, e: Event)
    requires Valid(rows)
    ensures OneLivePerSlot(Step(rows, e))
  {
    hide Step;
    hide ValidEmail;
    StepEvolves(rows, e);
    ghost var after := Step(rows, e);
    forall i, j | 0 <= i < j < |after| && Active(after[i].status) && Active(after[j].status)
      ensures after[i].owner != after[j].owner || after[i].inviteeEmail != after[j].inviteeEmail
    {
      assert Evolves(rows[i], after[i]);
      if j == |rows| {
        assert !Occupies(rows[i], e.owner.sub, Normalise(e.email));
      } else {
        assert Evolves(rows[j], after[j]);
      }
    }
  }

  lemma IdsAreInvites(es: seq<Event>, i: nat)
    requires i < |Run(es)|
    ensures exists k :: 0 <= k < |es| && es[k].Invite? && es[k].id == Run(es)[i].id
  {
    hide Step;
    var n := |es| - 1;
    var before := Run(es[..n]);
    AllWellKept(es[..n]);
    StepEvolves(before, es[n]);
    if i < |before| {
      IdsAreInvites(es[..n], i);
      assert Evolves(before[i], Run(es)[i]);
    } else {
      assert es[n].id == Run(es)[i].id;
    }
  }

  lemma StepKeepsIds(es: seq<Event>, e: Event)
    requires FreshIds(es + [e]) && UniqueIds(Run(es))
    ensures UniqueIds(Step(Run(es), e))
  {
    hide Step;
    AllWellKept(es);
    StepEvolves(Run(es), e);
    ghost var after := Step(Run(es), e);
    forall i, j | 0 <= i < j < |after|
      ensures after[i].id != after[j].id
    {
      assert Evolves(Run(es)[i], after[i]);
      if j == |Run(es)| {
        IdsAreInvites(es, i);
        var k :| 0 <= k < |es| && es[k].Invite? && es[k].id == Run(es)[i].id;
        assert (es + [e])[k] == es[k] && (es + [e])[|es|] == e;
      } else {
        assert Evolves(Run(es)[j], after[j]);
      }
    }
  }

  /** Every reachable table: unique ids, at most one live invite per owner and address, accepted rows bound. */
  lemma {:induction false} ReachableIsValid(es: seq<Event>)
    requires FreshIds(es)
    ensures Valid(Run(es))
  {
    hide Step;
    if es != [] {
      var n := |es| - 1;
      ReachableIsValid(es[..n]);
      assert es[..n] + [es[n]] == es;
      StepKeepsIds(es[..n], es[n]);
      StepKeepsSlots(Run(es[..n]), es[n]);
      AllWellKept(es);
    }
  }

  // ----- Grants are what their history says -----

  /** The k-th event of the history went through. */
  predicate Done(es: seq<Event>, k: nat)
    requires k < |es|
  {
    Refused(Run(es[..k]), es[k]).None?
  }

  predicate Invites(es: seq<Event>, k: nat, id: string, owner: string) {
    k < |es| && es[k].Invite? && es[k].id == id && es[k].owner.sub == owner && Done(es, k)
  }

  predicate Accepts(es: seq<Event>, k: nat, id: string, viewer: string) {
    k < |es| && es[k].Respond? && es[k].accept && es[k].id == id && es[k].who.sub == viewer && Done(es, k)
  }

  predicate Removes(es: seq<Event>, k: nat, id: string) {
    k < |es| && es[k].Remove? && es[k].id == id && Done(es, k)
  }

  /** The history holds an invite by the owner that the viewer accepted and nobody removed since. */
  ghost predicate Granted(es: seq<Event>, owner: string, viewer: string) {
    exists id :: OwnedBy(es, id, owner) && HeldBy(es, id, viewer)
  }

  ghost predicate OwnedBy(es: seq<Event>, id: string, owner: string) {
    exists h: nat :: Invites(es, h, id, owner)
  }

  ghost predicate HeldBy(es: seq<Event>, id: string, viewer: string) {
    exists i: nat :: Accepts(es, i, id, viewer) && forall k: nat :: i < k < |es| ==> !Removes(es, k, id)
  }

  /** The table says so for one invite. */
  ghost predicate RowHeldBy(rows: seq<Row>, id: string, viewer: string) {
    exists i :: 0 <= i < |rows| && rows[i].id == id && rows[i].status == Accepted && rows[i].invitee == Some(viewer)
  }

  ghost predicate RowOwnedBy(rows: seq<Row>, id: string, owner: string) {
    exists i :: 0 <= i < |rows| && rows[i].id == id && rows[i].owner == owner
  }

  lemma PrefixAgrees(es: seq<Event>, e: Event, k: nat)
    requires k < |es|
    ensures (es + [e])[k] == es[k] && Done(es + [e], k) == Done(es, k)
  {
    assert (es + [e])[..k] == es[..k];
  }

  lemma LastAgrees(es: seq<Event>, e: Event)
    ensures (es + [e])[|es|] == e && Done(es + [e], |es|) == Refused(Run(es), e).None?
    ensures Run(es + [e]) == Step(Run(es), e)
  {
    hide Refused;
    hide Step;
    assert (es + [e])[..|es|] == es;
  }

  predicate AcceptsNow(rows: seq<Row>, e: Event, id: string, viewer: string) {
    e.Respond? && e.accept && e.id == id && e.who.sub == viewer && Refused(rows, e).None?
  }

  predicate RemovesNow(rows: seq<Row>, e: Event, id: string) {
    e.Remove? && e.id == id && Refused(rows, e).None?
  }

  lemma HeldBySnoc(es: seq<Event>, e: Event, id: string, viewer: string)
    ensures HeldBy(es + [e], id, viewer) <==>
              AcceptsNow(Run(es), e, id, viewer) || (HeldBy(es, id, viewer) && !RemovesNow(Run(es), e, id))
  {
    hide Refused;
    hide Run;
    hide Done;
    var all := es + [e];
    LastAgrees(es, e);
    forall k: nat | k < |es|
      ensures all[k] == es[k] && Done(all, k) == Done(es, k)
    {
      PrefixAgrees(es, e, k);
    }
    assert RemovesNow(Run(es), e, id) <==> Removes(all, |es|, id);
    if AcceptsNow(Run(es), e, id, viewer) {
      assert Accepts(all, |es|, id, viewer);
    } else if HeldBy(es, id, viewer) && !RemovesNow(Run(es), e, id) {
      var i: nat :| Accepts(es, i, id, viewer) && forall k: nat :: i < k < |es| ==> !Removes(es, k, id);
      assert Accepts(all, i, id, viewer);
      forall k: nat | i < k < |all| ensures !Removes(all, k, id) {
        assert k < |es| ==> !Removes(es, k, id);
      }
    }
    if HeldBy(all, id, viewer) {
      var i: nat :| Accepts(all, i, id, viewer) && forall k: nat :: i < k < |all| ==> !Removes(all, k, id);
      if i < |es| {
        assert !Removes(all, |es|, id);
        assert Accepts(es, i, id, viewer);
        forall k: nat | i < k < |es| ensures !Removes(es, k, id) {
          assert !Removes(all, k, id);
        }
      }
    }
  }

  lemma OwnedBySnoc(es: seq<Event>, e: Event, id: string, owner: string)
    ensures OwnedBy(es + [e], id, owner) <==>
              OwnedBy(es, id, owner) || (e.Invite? && e.id == id && e.owner.sub == owner && Refused(Run(es), e).None?)
  {
    hide Refused;
    hide Run;
    hide Done;
    var all := es + [e];
    LastAgrees(es, e);
    forall k: nat | k < |es|
      ensures all[k] == es[k] && Done(all, k) == Done(es, k)
    {
      PrefixAgrees(es, e, k);
    }
    if OwnedBy(es, id, owner) {
      var h: nat :| Invites(es, h, id, owner);
      assert Invites(all, h, id, owner);
    } else if e.Invite? && e.id == id && e.owner.sub == owner && Refused(Run(es), e).None? {
      assert Invites(all, |es|, id, owner);
    }
    if OwnedBy(all, id, owner) {
      var h: nat :| Invites(all, h, id, owner);
      assert h < |es| ==> Invites(es, h, id, owner);
    }
  }

  lemma RowHeldStep(rows: seq<Row>, e: Event, id: string, viewer: string)
    requires Valid(rows)
    ensures RowHeldBy(Step(rows, e), id, viewer) <==>
              AcceptsNow(rows, e, id, viewer) || (RowHeldBy(rows, id, viewer) && !RemovesNow(rows, e, id))
  {
    hide ValidEmail;
    hide OneLivePerSlot;
    hide Normalise;
    var after := Step(rows, e);
    StepEvolves(rows, e);
    forall i | 0 <= i < |after|
      ensures (after[i].id == id && after[i].status == Accepted && after[i].invitee == Some(viewer)) <==>
              i < |rows| && rows[i].id == id
              && (AcceptsNow(rows, e, id, viewer)
                  || (rows[i].status == Accepted && rows[i].invitee == Some(viewer) && !RemovesNow(rows, e, id)))
    {
      if i < |rows| {
        assert rows[i] in rows;
        assert WellKept(rows[i]);
      }
    }
    if AcceptsNow(rows, e, id, viewer) {
      assert rows[ById(rows, id)].id == id;
    }
  }

  lemma RowOwnedStep(rows: seq<Row>, e: Event, id: string, owner: string)
    requires forall r <- rows :: WellKept(r)
    ensures RowOwnedBy(Step(rows, e), id, owner) <==>
              RowOwnedBy(rows, id, owner) || (e.Invite? && e.id == id && e.owner.sub == owner && Refused(rows, e).None?)
  {
    hide Refused;
    StepEvolves(rows, e);
    var after := Step(rows, e);
    forall i | 0 <= i < |rows| ensures after[i].id == rows[i].id && after[i].owner == rows[i].owner {
      assert Evolves(rows[i], after[i]);
    }
  }

  lemma {:induction false} RowsFollowHistory(es: seq<Event>, id: string, user: string)
    requires FreshIds(es)
    ensures RowHeldBy(Run(es), id, user) <==> HeldBy(es, id, user)
    ensures RowOwnedBy(Run(es), id, user) <==> OwnedBy(es, id, user)
  {
    hide Step;
    hide Refused;
    if es != [] {
      var n := |es| - 1;
      assert es[..n] + [es[n]] == es;
      RowsFollowHistory(es[..n], id, user);
      ReachableIsValid(es[..n]);
      HeldBySnoc(es[..n], es[n], id, user);
      OwnedBySnoc(es[..n], es[n], id, user);
      RowHeldStep(Run(es[..n]), es[n], id, user);
      RowOwnedStep(Run(es[..n]), es[n], id, user);
    }
  }

  /** Access is exactly an accepted and not removed invite, and a list is shared iff somebody has access. */
  lemma GrantsRefineHistory(es: seq<Event>, owner: string, viewer: string)
    requires FreshIds(es)
    ensures IsSharedWith(Run(es), owner, viewer) <==> Granted(es, owner, viewer)
    ensures IsShared(Run(es), owner) <==> exists v :: IsSharedWith(Run(es), owner, v)
  {
    hide Run;
    hide HeldBy;
    hide OwnedBy;
    var rows := Run(es);
    ReachableIsValid(es);
    SharedByRow(rows, owner, viewer);
    SharedWithSomebody(rows, owner);
    forall id
      ensures RowHeldBy(rows, id, viewer) <==> HeldBy(es, id, viewer)
      ensures RowOwnedBy(rows, id, owner) <==> OwnedBy(es, id, owner)
    {
      RowsFollowHistory(es, id, viewer);
      RowsFollowHistory(es, id, owner);
    }
  }

  lemma SharedByRow(rows: seq<Row>, owner: string, viewer: string)
    requires UniqueIds(rows)
    ensures IsSharedWith(rows, owner, viewer) <==> exists id :: RowOwnedBy(rows, id, owner) && RowHeldBy(rows, id, viewer)
  {
    if IsSharedWith(rows, owner, viewer) {
      var r :| r in rows && r.status == Accepted && r.owner == owner && r.invitee == Some(viewer);
      assert RowOwnedBy(rows, r.id, owner) && RowHeldBy(rows, r.id, viewer);
    }
    if id :| RowOwnedBy(rows, id, owner) && RowHeldBy(rows, id, viewer) {
      var i :| 0 <= i < |rows| && rows[i].id == id && rows[i].status == Accepted && rows[i].invitee == Some(viewer);
      assert rows[i].owner == owner;
      assert rows[i] in rows;
    }
  }

  lemma SharedWithSomebody(rows: seq<Row>, owner: string)
    requires forall r <- rows :: WellKept(r)
    ensures IsShared(rows, owner) <==> exists v :: IsSharedWith(rows, owner, v)
  {
    if IsShared(rows, owner) {
      var r :| r in rows && r.status == Accepted && r.owner == owner;
      assert WellKept(r);
      assert IsSharedWith(rows, owner, r.invitee.value);
    }
  }

  /**
   * Either party, and nobody else, takes an invite down: it is revoked, keeps the time of its first answer, gives
   * nobody access any more, and no other row changes.
   */
  lemma RemovalRevokes(rows: seq<Row>, id: string, sub: string, at: int, i: nat)
    requires Valid(rows) && i < |rows| && rows[i].id == id
    ensures var e := Remove(id, sub, at);
            var after := Step(rows, e);
            && (Refused(rows, e).None? <==> sub == rows[i].owner || Some(sub) == rows[i].invitee)
            && (Refused(rows, e).Some? ==> after == rows)
            && (Refused(rows, e).None? ==>
                  |after| == |rows| && after[i].status == Revoked && Evolves(rows[i], after[i])
                  && (forall k :: 0 <= k < |rows| && k != i ==> after[k] == rows[k])
                  && forall viewer :: !RowHeldBy(after, id, viewer))
  {
    hide WellKept;
    assert ById(rows, id) == i;
    assert rows[i] in rows;
    RowEvolves(rows[i], User("", "", ""), false, at);
  }

  // ----- Consent of the invited address -----

  /** The user signed in, or answered, as the account that owns this address. */
  predicate Shows(e: Event, user: string, email: string) {
    (e.Login? && e.user.sub == user && Normalise(e.user.email) == email)
    || (e.Respond? && e.who.sub == user && Normalise(e.who.email) == email)
  }

  lemma BindingStep(rows: seq<Row>, e: Event, i: nat)
    requires i < |Step(rows, e)| && Step(rows, e)[i].invitee.Some?
    requires forall r <- rows :: WellKept(r)
    ensures (i < |rows| && rows[i].invitee == Step(rows, e)[i].invitee && rows[i].inviteeEmail == Step(rows, e)[i].inviteeEmail)
            || Shows(e, Step(rows, e)[i].invitee.value, Step(rows, e)[i].inviteeEmail)
  {
    hide Normalise;
    hide ValidEmail;
    StepEvolves(rows, e);
  }

  /** Whoever an invite is bound to has shown the invited address at some time. */
  lemma {:induction false} BoundByAddress(es: seq<Event>, i: nat)
    requires i < |Run(es)| && Run(es)[i].invitee.Some?
    ensures exists k :: 0 <= k < |es| && Shows(es[k], Run(es)[i].invitee.value, Run(es)[i].inviteeEmail)
  {
    hide Step;
    hide Shows;
    var n := |es| - 1;
    AllWellKept(es[..n]);
    BindingStep(Run(es[..n]), es[n], i);
    var user, email := Run(es)[i].invitee.value, Run(es)[i].inviteeEmail;
    if !Shows(es[n], user, email) {
      BoundByAddress(es[..n], i);
      var k :| 0 <= k < |es[..n]| && Shows(es[..n][k], user, email);
      assert Shows(es[k], user, email);
    }
  }

  // ----- What is admitted -----

  /** Some text without blanks and without a further at sign. */
  predicate Piece(s: string) {
    |s| > 0 && '@' !in s && forall c :: Blank(c) ==> c !in s
  }

  /** Two pieces on either side of an at sign and a third behind a dot. */
  predicate Pieces3(e: string, local: string, host: string, domain: string) {
    Piece(local) && Piece(host) && Piece(domain) && e == local + "@" + host + "." + domain
  }

  lemma ValidHasPieces(e: string)
    requires ValidEmail(e)
    ensures exists local, host, domain :: Pieces3(e, local, host, domain)
  {
    hide Piece;
    hide Part;
    var at, dot :| 0 <= at < dot < |e| && e[at] == '@' && e[dot] == '.'
      && Part(e[..at]) && Part(e[at + 1..dot]) && Part(e[dot + 1..]);
    var local, host, domain := e[..at], e[at + 1..dot], e[dot + 1..];
    PartIsPiece(local);
    PartIsPiece(host);
    PartIsPiece(domain);
    hide ValidEmail;
    CutAtSigns(e, at, dot);
    assert Pieces3(e, local, host, domain);
  }

  lemma CutAtSigns(e: string, at: nat, dot: nat)
    requires at < dot < |e| && e[at] == '@' && e[dot] == '.'
    ensures e == e[..at] + "@" + e[at + 1..dot] + "." + e[dot + 1..]
  {
  }

  lemma PiecesAreValid(e: string, local: string, host: string, domain: string)
    requires Pieces3(e, local, host, domain)
    ensures ValidEmail(e)
  {
    hide Piece;
    PartIsPiece(local);
    PartIsPiece(host);
    PartIsPiece(domain);
    hide Part;
    var at := |local|;
    var dot := at + 1 + |host|;
    assert e[..at] == local && e[at + 1..dot] == host && e[dot + 1..] == domain;
    assert e[at] == '@' && e[dot] == '.';
  }

  /** An address is valid exactly when it is three such pieces, an at sign and a dot between them. */
  lemma ValidEmailIff(e: string)
    ensures ValidEmail(e) <==> exists local, host, domain :: Pieces3(e, local, host, domain)
  {
    hide ValidEmail;
    hide Pieces3;
    if ValidEmail(e) {
      ValidHasPieces(e);
    } else if local, host, domain :| Pieces3(e, local, host, domain) {
      PiecesAreValid(e, local, host, domain);
    }
  }

  lemma PartIsPiece(s: string)
    ensures Part(s) <==> Piece(s)
  {
    if Part(s) {
      forall c | Blank(c) ensures c !in s {
      }
    } else if Piece(s) {
      forall c | c in s ensures !Blank(c) && c != '@' {
      }
    }
  }

  /**
   * An invite is admitted exactly when its address is valid, is not the owner's and has no pending or accepted invite
   * by the owner yet. It is then waiting for an answer, bound to nobody, and shows the owner by name, else by address.
   */
  lemma InviteIsAdmittedIff(rows: seq<Row>, id: string, owner: User, email: string, at: int)
    ensures var e := Invite(id, owner, email, at);
            && (Refused(rows, e).None? <==>
                  && ValidEmail(Lower(Trim(email))) && Lower(Trim(email)) != Lower(Trim(owner.email))
                  && forall r <- rows :: r.owner == owner.sub && r.inviteeEmail == Lower(Trim(email)) ==>
                       r.status != Pending && r.status != Accepted)
            && (Refused(rows, e).None? ==>
                  |Step(rows, e)| == |rows| + 1 && Step(rows, e)[..|rows|] == rows
                  && var r := Step(rows, e)[|rows|];
                     && r.id == id && r.owner == owner.sub && r.ownerEmail == Lower(Trim(owner.email))
                     && r.inviteeEmail == Lower(Trim(email)) && r.invitee == None && r.status == Pending
                     && r.createdAt == at && r.respondedAt == None
                     && (owner.name != "" ==> r.ownerName == Some(owner.name))
                     && (owner.name == "" && owner.email != "" ==> r.ownerName == Some(owner.email))
                     && (owner.name == "" && owner.email == "" ==> r.ownerName == None))
  {
    hide ValidEmail;
    hide Trim;
    hide Lower;
    var i := Duplicate(rows, owner.sub, Normalise(email));
    if i < |rows| {
      assert rows[i] in rows;
    }
  }

  /**
   * An answer is admitted exactly when its invite waits for one and is bound to the user, or is bound to nobody and
   * carries the user's address. It accepts or declines that invite, an accepted one is the user's, and no other changes.
   */
  lemma AnswerIsAdmittedIff(rows: seq<Row>, id: string, who: User, accept: bool, at: int, i: nat)
    requires UniqueIds(rows) && i < |rows| && rows[i].id == id
    ensures var e := Respond(id, who, accept, at);
            && (Refused(rows, e).None? <==>
                  rows[i].status == Pending
                  && (rows[i].invitee == Some(who.sub)
                      || (rows[i].invitee == None && rows[i].inviteeEmail == Lower(Trim(who.email)))))
            && (Refused(rows, e).None? ==>
                  Step(rows, e) ==
                  rows[i := rows[i].(status := if accept then Accepted else Declined,
                                     invitee := if accept then Some(who.sub) else rows[i].invitee,
                                     respondedAt := Some(at))])
  {
    hide Trim;
    hide Lower;
    assert ById(rows, id) == i;
  }

  /** A login binds the user to the invites of the address that wait or are accepted and are bound to nobody, and to no other. */
  lemma LoginBindsIff(rows: seq<Row>, user: User, i: nat)
    requires i < |rows|
    ensures var after := Step(rows, Login(user));
            |after| == |rows|
            && after[i] ==
               if rows[i].invitee == None && rows[i].inviteeEmail == Lower(Trim(user.email))
                 && (rows[i].status == Pending || rows[i].status == Accepted)
               then rows[i].(invitee := Some(user.sub)) else rows[i]
  {
    hide Trim;
    hide Lower;
  }

  // ----- The shares file -----

  class SharesFile {
    var rows: seq<Row>

    constructor ()
      ensures rows == []
    {
      rows := [];
    }

    method CreateInvite(id: string, owner: User, inviteeEmail: string, at: int) returns (refused: Option<Refusal>)
      modifies this
      ensures refused == Refused(old(rows), Invite(id, owner, inviteeEmail, at))
      ensures rows == Step(old(rows), Invite(id, owner, inviteeEmail, at))
    {
      var email := Normalise(inviteeEmail);
      if !ValidEmail(email) {
        return Some(InvalidEmail);
      }
      if email == Normalise(owner.email) {
        return Some(OwnEmail);
      }
      var dup := Duplicate(rows, owner.sub, email);
      if dup < |rows| {
        return Some(if rows[dup].status == Accepted then AlreadyShared else AlreadyInvited);
      }
      rows := rows + [Invited(id, owner, inviteeEmail, at)];
      return None;
    }

    method Answer(id: string, who: User, accept: bool, at: int) returns (refused: Option<Refusal>)
      modifies this
      ensures refused == Refused(old(rows), Respond(id, who, accept, at))
      ensures rows == Step(old(rows), Respond(id, who, accept, at))
    {
      var i := ById(rows, id);
      if i == |rows| || !Addresses(rows[i], who) {
        return Some(NotFound);
      }
      var row := rows[i];
      if row.status != Pending {
        return Some(AlreadyAnswered);
      }
      row := row.(status := if accept then Accepted else Declined);
      if accept {
        row := row.(invitee := Some(who.sub));
      }
      rows := rows[i := row.(respondedAt := Some(at))];
      return None;
    }

    method TearDown(id: string, sub: string, at: int) returns (refused: Option<Refusal>)
      modifies this
      ensures refused == Refused(old(rows), Remove(id, sub, at))
      ensures rows == Step(old(rows), Remove(id, sub, at))
      ensures refused.None? ==> exists r <- old(rows) :: r.id == id && (sub == r.owner || Some(sub) == r.invitee)
      ensures refused.Some? ==> rows == old(rows)
    {
      var i := ById(rows, id);
      if i == |rows| || (sub != rows[i].owner && Some(sub) != rows[i].invitee) {
        return Some(NotFound);
      }
      rows := rows[i := Removed(rows[i], at)];
      return None;
    }

    method BindPendingInvites(user: User)
      modifies this
      ensures rows == Step(old(rows), Login(user))
    {
      var email := Normalise(user.email);
      var next, changed := rows, false;
      for i := 0 to |rows|
        invariant |next| == |rows|
        invariant forall k :: 0 <= k < i ==> next[k] == Bound(rows[k], user)
        invariant forall k :: i <= k < |rows| ==> next[k] == rows[k]
        invariant !changed ==> next == rows
      {
        if next[i].invitee.None? && next[i].inviteeEmail == email && Active(next[i].status) {
          next := next[i := next[i].(invitee := Some(user.sub))];
          changed := true;
        }
      }
      assert next == BindAll(rows, user);
      if changed {
        rows := next;
      }
    }
  }
}
