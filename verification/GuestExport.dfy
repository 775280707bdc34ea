/**
 * The hotel agent's paged, at-least-once guest export (apps/hotel/agent/HotelSync.cs) to a server whose guests
 * edit their data online (apps/hotel/api/src/routes).
 */
module GuestExport {
  import opened Common

  const BATCH := 100

  /** A row of the hotel's own guest table. */
  datatype Guest = Guest(code: string, details: string, eligible: bool, exported: bool)

  /** Between which two steps of the job the agent stands; `Idle` between two runs. */
  datatype Place = Idle | AfterReset | AtLoop | AfterPush(codes: set<string>)

  /** A guest as the server holds it; `pending` while an online edit has not gone back to the hotel yet. */
  datatype Held = Held(details: string, pending: bool)

  type Server = map<string, Held>

  /** The guest table, the first-run marker file, what the server holds, and the agent's place in the job. */
  datatype State = State(guests: seq<Guest>, marker: bool, server: Server, place: Place)

  /**
   * What can happen next: a run starts; the marker is written; a page is pushed, and the server stores it or
   * not, and the agent hears of it or not; the pushed page is marked; a run ends; the agent dies. Meanwhile a
   * guest the server knows may submit an online check-in, and its write-back may be acknowledged.
   */
  datatype Step =
    | Start
    | WriteMarker
    | Push(page: seq<Guest>, stored: bool, heard: bool)
    | Mark
    | Finish
    | Crash
    | Submit(code: string, details: string)
    | Acknowledge(code: string)

  predicate IsDue(g: Guest) {
    g.eligible && !g.exported
  }

  function Due(gs: seq<Guest>): seq<Guest> {
    if gs == [] then [] else (if IsDue(gs[0]) then [gs[0]] else []) + Due(gs[1..])
  }

  function ResetAll(gs: seq<Guest>): (r: seq<Guest>)
    ensures |r| == |gs|
  {
    seq(|gs|, i requires 0 <= i < |gs| => gs[i].(exported := false))
  }

  function MarkExported(gs: seq<Guest>, codes: set<string>): (r: seq<Guest>)
    ensures |r| == |gs|
  {
    seq(|gs|, i requires 0 <= i < |gs| => if gs[i].code in codes then gs[i].(exported := true) else gs[i])
  }

  function Codes(gs: seq<Guest>): set<string> {
    set g | g in gs :: g.code
  }

  predicate IsPending(server: Server, code: string) {
    code in server && server[code].pending
  }

  /** The upsert: a row without a code is passed over, and a guest with an online edit pending is skipped. */
  function Upsert(server: Server, g: Guest): Server {
    if g.code == "" || IsPending(server, g.code) then server else server[g.code := Held(g.details, false)]
  }

  function Store(server: Server, page: seq<Guest>): Server {
    if page == [] then server else Upsert(Store(server, page[..|page| - 1]), page[|page| - 1])
  }

  /** A page is some of the due guests, at least one and at most a batch. */
  predicate IsPage(gs: seq<Guest>, page: seq<Guest>) {
    0 < |page| <= BATCH && forall g <- page :: g in gs && IsDue(g)
  }

  predicate Enabled(s: State, step: Step) {
    match step
    case Start => s.place.Idle?
    case WriteMarker => s.place.AfterReset?
    case Push(page, stored, heard) => s.place.AtLoop? && IsPage(s.guests, page) && (heard ==> stored)
    case Mark => s.place.AfterPush?
    case Finish => s.place.AtLoop? && Due(s.guests) == []
    case Crash => true
    case Submit(code, _) => code in s.server
    case Acknowledge(code) => code in s.server
  }

  function Next(s: State, step: Step): State
    requires Enabled(s, step)
  {
    match step
    case Start => if s.marker then s.(place := AtLoop) else s.(guests := ResetAll(s.guests), place := AfterReset)
    case WriteMarker => s.(marker := true, place := AtLoop)
    case Push(page, stored, heard) =>
      s.(server := if stored then Store(s.server, page) else s.server,
         place := if heard then AfterPush(Codes(page)) else Idle)
    case Mark => s.(guests := MarkExported(s.guests, s.place.codes), place := AtLoop)
    case Finish => s.(place := Idle)
    case Crash => s.(place := Idle)
    case Submit(code, details) => s.(server := s.server[code := Held(details, true)])
    case Acknowledge(code) => s.(server := s.server[code := Held(s.server[code].details, false)])
  }

  /** The steps can happen in this order. */
  predicate CanRun(s: State, steps: seq<Step>)
    decreases |steps|, 0
  {
    steps == [] ||
    (CanRun(s, steps[..|steps| - 1]) && Enabled(Run(s, steps[..|steps| - 1]), steps[|steps| - 1]))
  }

  function Run(s: State, steps: seq<Step>): State
    requires CanRun(s, steps)
    decreases |steps|, 1
  {
    if steps == [] then s else Next(Run(s, steps[..|steps| - 1]), steps[|steps| - 1])
  }

  predicate UniqueCodes(gs: seq<Guest>) {
    forall i, j :: 0 <= i < j < |gs| ==> gs[i].code != gs[j].code
  }

  // ----- Nothing is lost -----

  /** The server has stored a push of the guest. */
  predicate Accepts(step: Step, code: string) {
    step.Push? && step.stored && code in Codes(step.page) && code != ""
  }

  /** The codes the server has stored pushes of, over a history. */
  function Accepted(steps: seq<Step>): set<string> {
    if steps == [] then {}
    else Accepted(steps[..|steps| - 1]) + AcceptedBy(steps[|steps| - 1])
  }

  function AcceptedBy(step: Step): set<string> {
    if step.Push? && step.stored then Codes(step.page) - {""} else {}
  }

  lemma {:induction false} AcceptedMeans(steps: seq<Step>, code: string)
    ensures code in Accepted(steps) <==> exists i :: 0 <= i < |steps| && Accepts(steps[i], code)
  {
    hide Codes;
    if steps != [] {
      AcceptedMeans(steps[..|steps| - 1], code);
      assert steps == steps[..|steps| - 1] + [steps[|steps| - 1]];
    }
  }

  /** What every moment keeps: marked guests were accepted, and so is a page on its way to being marked. */
  ghost predicate Sound(s: State, accepted: set<string>) {
    && UniqueCodes(s.guests)
    && accepted <= s.server.Keys
    && (s.marker ==> forall g <- s.guests :: g.exported ==> g.code in accepted + {""})
    && (s.place.AfterReset? ==> forall g <- s.guests :: !g.exported)
    && (s.place.AtLoop? || s.place.AfterPush? ==> s.marker)
    && (s.place.AfterPush? ==> s.place.codes <= accepted + {""})
    && "" !in accepted
  }

  lemma {:induction false} StoreKnows(server: Server, page: seq<Guest>)
    ensures Store(server, page).Keys == server.Keys + (Codes(page) - {""})
  {
    if page != [] {
      var n := |page| - 1;
      assert page == page[..n] + [page[n]];
      StoreKnows(server, page[..n]);
      assert Codes(page) == Codes(page[..n]) + {page[n].code};
      assert page[n].code in server.Keys + (Codes(page[..n]) - {""}) || !IsPending(Store(server, page[..n]), page[n].code);
    }
  }

  lemma StepIsSound(s: State, accepted: set<string>, step: Step)
    requires Sound(s, accepted) && Enabled(s, step)
    ensures Sound(Next(s, step), accepted + AcceptedBy(step))
  {
    var after := Next(s, step);
    match step
    case Start =>
      if !s.marker {
        forall g | g in after.guests ensures !g.exported {
        }
      }
    case Push(page, stored, heard) =>
      hide IsPage;
      hide Store;
      StoreKnows(s.server, page);
    case Mark =>
      MarkedGuests(s.guests, s.place.codes);
      forall g | g in after.guests && g.exported ensures g.code in accepted + {""} {
        var i :| 0 <= i < |after.guests| && after.guests[i] == g;
        assert s.guests[i] in s.guests;
      }
    case _ =>
  }

  lemma MarkedGuests(gs: seq<Guest>, codes: set<string>)
    ensures forall i :: 0 <= i < |gs| ==>
              MarkExported(gs, codes)[i].code == gs[i].code && MarkExported(gs, codes)[i].details == gs[i].details
              && (MarkExported(gs, codes)[i].exported <==> gs[i].exported || gs[i].code in codes)
  {
  }

  lemma {:induction false} AlwaysSound(s: State, steps: seq<Step>)
    requires UniqueCodes(s.guests) && !s.marker && s.place.Idle? && CanRun(s, steps)
    ensures Sound(Run(s, steps), Accepted(steps))
  {
    hide Sound;
    hide AcceptedBy;
    if steps != [] {
      AlwaysSound(s, steps[..|steps| - 1]);
      StepIsSound(Run(s, steps[..|steps| - 1]), Accepted(steps[..|steps| - 1]), steps[|steps| - 1]);
    } else {
      FreshIsSound(s);
    }
  }

  lemma FreshIsSound(s: State)
    requires UniqueCodes(s.guests) && !s.marker && s.place.Idle?
    ensures Sound(s, {})
  {
  }

  /**
   * Nothing is lost: from any table and any server, with the agent dying anywhere any number of times, answers
   * getting lost and guests editing online, once the marker exists the server has accepted a push of a guest marked
   * exported, and knows it, exactly when the guest has a code.
   */
  lemma NoGuestIsLost(s: State, steps: seq<Step>, g: Guest)
    requires UniqueCodes(s.guests) && !s.marker && s.place.Idle? && CanRun(s, steps)
    requires Run(s, steps).marker && g in Run(s, steps).guests && g.exported
    ensures g.code != "" <==> exists i :: 0 <= i < |steps| && Accepts(steps[i], g.code)
    ensures g.code != "" ==> g.code in Run(s, steps).server
  {
    hide Run;
    AlwaysSound(s, steps);
    AcceptedMeans(steps, g.code);
  }

  // ----- Runs and pending edits over a history -----

  /** The step ends a run, or finds none to end. */
  predicate Ends(step: Step) {
    step.Finish? || step.Crash? || (step.Push? && !step.heard)
  }

  /** The run that was started in step `i` is still under way in front of step `j`. */
  predicate UnderWay(steps: seq<Step>, i: nat, j: nat) {
    i < j <= |steps| && steps[i].Start? && forall k :: i < k < j ==> !Ends(steps[k])
  }

  /** The agent stands idle unless a run is under way: a death ends it, and only a start begins another. */
  lemma {:induction false} IdleBetweenRuns(s: State, steps: seq<Step>)
    requires CanRun(s, steps) && s.place.Idle?
    ensures Run(s, steps).place.Idle? <==> forall i: nat :: !UnderWay(steps, i, |steps|)
  {
    if steps != [] {
      var n := |steps| - 1;
      var init := steps[..n];
      IdleBetweenRuns(s, init);
      PlaceStep(Run(s, init), steps[n]);
      hide Next;
      hide Enabled;
      forall i: nat
        ensures UnderWay(steps, i, |steps|) <==> (i == n && steps[n].Start?) || (UnderWay(init, i, n) && !Ends(steps[n]))
      {
        UnderWayStep(steps, i);
      }
      hide UnderWay;
      hide Ends;
      if i: nat :| UnderWay(init, i, n) {
        assert UnderWay(steps, i, |steps|) || Ends(steps[n]);
      }
      if steps[n].Start? {
        assert UnderWay(steps, n, |steps|);
      }
    }
  }

  lemma PlaceStep(s: State, step: Step)
    requires Enabled(s, step)
    ensures Next(s, step).place.Idle? <==> Ends(step) || (s.place.Idle? && !step.Start?)
  {
  }

  lemma UnderWayStep(steps: seq<Step>, i: nat)
    requires steps != []
    ensures var n := |steps| - 1;
            UnderWay(steps, i, n + 1) <==> (i == n && steps[n].Start?) || (UnderWay(steps[..n], i, n) && !Ends(steps[n]))
  {
    hide Ends;
    var n := |steps| - 1;
    assert forall k :: 0 <= k < n ==> steps[..n][k] == steps[k];
  }

  /** A check-in of the guest was submitted in step `i`, and none acknowledged since. */
  predicate SubmittedSince(steps: seq<Step>, i: nat, code: string) {
    i < |steps| && steps[i].Submit? && steps[i].code == code && NoneAcknowledged(steps, i, code)
  }

  predicate NoneAcknowledged(steps: seq<Step>, i: nat, code: string) {
    forall k :: i <= k < |steps| && steps[k].Acknowledge? ==> steps[k].code != code
  }

  /** A guest is pending exactly while a check-in it submitted, now or before, has not been acknowledged. */
  lemma {:induction false} PendingIff(s: State, steps: seq<Step>, code: string)
    requires CanRun(s, steps)
    ensures IsPending(Run(s, steps).server, code) <==>
              (IsPending(s.server, code) && NoneAcknowledged(steps, 0, code)) || exists i: nat :: SubmittedSince(steps, i, code)
  {
    if steps != [] {
      var n := |steps| - 1;
      var init, last := steps[..n], steps[n];
      PendingIff(s, init, code);
      PendingStep(Run(s, init), last, code);
      hide Enabled;
      hide Next;
      hide IsPending;
      assert steps == init + [last];
      hide Run;
      hide CanRun;
      forall i: nat
        ensures SubmittedSince(steps, i, code) <==>
                  !(last.Acknowledge? && last.code == code)
                  && (SubmittedSince(init, i, code) || (i == n && last.Submit? && last.code == code))
      {
        SubmittedStep(init, last, i, code);
      }
      SubmittedStep(init, last, 0, code);
      hide SubmittedSince;
      hide NoneAcknowledged;
      if last.Submit? && last.code == code {
        assert SubmittedSince(steps, n, code);
      } else if !(last.Acknowledge? && last.code == code) {
        if i: nat :| SubmittedSince(init, i, code) {
          assert SubmittedSince(steps, i, code);
        }
      }
    }
  }

  lemma SubmittedStep(init: seq<Step>, last: Step, i: nat, code: string)
    ensures SubmittedSince(init + [last], i, code) <==>
              !(last.Acknowledge? && last.code == code)
              && (SubmittedSince(init, i, code) || (i == |init| && last.Submit? && last.code == code))
    ensures NoneAcknowledged(init + [last], 0, code) <==>
              NoneAcknowledged(init, 0, code) && !(last.Acknowledge? && last.code == code)
  {
    var steps := init + [last];
    assert steps[|init|] == last;
    assert forall k :: 0 <= k < |init| ==> steps[k] == init[k];
  }

  /** Only a submitted check-in makes a guest pending, and only an acknowledgement ends that. */
  lemma PendingStep(s: State, step: Step, code: string)
    requires Enabled(s, step)
    ensures IsPending(Next(s, step).server, code) <==>
              (step.Submit? && step.code == code) || (IsPending(s.server, code) && !(step.Acknowledge? && step.code == code))
  {
    if step.Push? && step.stored {
      StoreKeepsPending(s.server, step.page, code);
    }
  }

  lemma {:induction false} StoreKeepsPending(server: Server, page: seq<Guest>, code: string)
    ensures IsPending(Store(server, page), code) <==> IsPending(server, code)
  {
    if page != [] {
      StoreKeepsPending(server, page[..|page| - 1], code);
    }
  }

  // ----- Whose details the server holds -----

  /** The details of the last online check-in a guest submitted. */
  function LastSubmitted(steps: seq<Step>, code: string): Option<string> {
    if steps == [] then None
    else
      var last := steps[|steps| - 1];
      if last.Submit? && last.code == code then Some(last.details) else LastSubmitted(steps[..|steps| - 1], code)
  }

  /** The same guests, apart from the export flag. */
  predicate SameGuests(a: seq<Guest>, b: seq<Guest>) {
    |a| == |b| && forall i :: 0 <= i < |a| ==> a[i].(exported := false) == b[i].(exported := false)
  }

  lemma {:induction false} GuestsStay(s: State, steps: seq<Step>)
    requires CanRun(s, steps)
    ensures SameGuests(s.guests, Run(s, steps).guests)
  {
    hide Enabled;
    if steps != [] {
      GuestsStay(s, steps[..|steps| - 1]);
    }
  }

  lemma SameCodeSameDetails(a: seq<Guest>, b: seq<Guest>, c: seq<Guest>, g: Guest, h: Guest)
    requires UniqueCodes(a) && SameGuests(a, b) && SameGuests(a, c) && g in b && h in c && g.code == h.code
    ensures g.details == h.details
  {
    var i :| 0 <= i < |b| && b[i] == g;
    var j :| 0 <= j < |c| && c[j] == h;
    assert a[i].(exported := false) == b[i].(exported := false) && a[j].(exported := false) == c[j].(exported := false);
    assert a[i].code == a[j].code;
  }

  /** A push gives a guest that is not pending the details of the table, and leaves a pending one alone. */
  lemma {:induction false} StoreHolds(server: Server, page: seq<Guest>, code: string, details: string)
    requires code != "" && forall g <- page :: g.code == code ==> g.details == details
    ensures code in Codes(page) ==> code in Store(server, page)
    ensures IsPending(Store(server, page), code) == IsPending(server, code)
    ensures IsPending(server, code) ==> code in Store(server, page) && Store(server, page)[code] == server[code]
    ensures !IsPending(server, code) && code in Codes(page) ==> Store(server, page)[code] == Held(details, false)
    ensures code !in Codes(page) && code in server ==> code in Store(server, page) && Store(server, page)[code] == server[code]
  {
    if page != [] {
      var n := |page| - 1;
      assert page == page[..n] + [page[n]];
      StoreHolds(server, page[..n], code, details);
      assert code in Codes(page) <==> code in Codes(page[..n]) || code == page[n].code;
    }
  }

  /** What the server holds of a guest after the history: the last check-in since, or what the push left. */
  lemma {:induction false} HeldSince(s: State, steps: seq<Step>, i: nat, code: string)
    requires CanRun(s, steps) && i <= |steps|
    requires CanRun(s, steps[..i]) && code in Run(s, steps[..i]).server
    requires forall k :: i <= k < |steps| ==> !Accepts(steps[k], code)
    ensures code in Run(s, steps).server
    ensures Run(s, steps).server[code].details ==
            GetOr(LastSubmitted(steps[i..], code), Run(s, steps[..i]).server[code].details)
  {
    hide Enabled;
    var n := |steps| - 1;
    if i == |steps| {
      assert steps[..i] == steps && steps[i..] == [];
    } else {
      assert steps[..n][..i] == steps[..i];
      assert steps[i..][..|steps[i..]| - 1] == steps[..n][i..];
      HeldSince(s, steps[..n], i, code);
      OneStepHolds(Run(s, steps[..n]), steps[n], code);
    }
  }

  lemma OneStepHolds(s: State, step: Step, code: string)
    requires Enabled(s, step) && !Accepts(step, code) && code in s.server
    ensures code in Next(s, step).server
    ensures Next(s, step).server[code].details ==
            if step.Submit? && step.code == code then step.details else s.server[code].details
  {
    if step.Push? && step.stored {
      StoreLeaves(s.server, step.page, code);
    }
  }

  lemma {:induction false} StoreLeaves(server: Server, page: seq<Guest>, code: string)
    requires (code == "" || code !in Codes(page)) && code in server
    ensures code in Store(server, page) && Store(server, page)[code] == server[code]
  {
    if page != [] {
      var n := |page| - 1;
      assert page == page[..n] + [page[n]];
      assert page[n] in page;
      StoreLeaves(server, page[..n], code);
    }
  }

  lemma {:induction false} CanRunPrefix(s: State, steps: seq<Step>, i: nat)
    requires CanRun(s, steps) && i <= |steps|
    ensures CanRun(s, steps[..i])
    ensures i < |steps| ==> Enabled(Run(s, steps[..i]), steps[i])
  {
    hide Enabled;
    var n := |steps| - 1;
    if i < n {
      CanRunPrefix(s, steps[..n], i);
      assert steps[..n][..i] == steps[..i];
    } else if i == |steps| {
      assert steps[..i] == steps;
    }
  }

  /**
   * After its last accepted push, the server's details of a guest are the agent's exactly when: the last check-in
   * submitted since says the same, if there was one; else, if the guest was pending at the push, what it had
   * submitted before says the same; and always otherwise.
   */
  lemma DetailsAreTheAgentsIff(s: State, steps: seq<Step>, i: nat, g: Guest)
    requires UniqueCodes(s.guests) && CanRun(s, steps) && i < |steps|
    requires g in Run(s, steps).guests && Accepts(steps[i], g.code)
    requires forall k :: i < k < |steps| ==> !Accepts(steps[k], g.code)
    ensures CanRun(s, steps[..i]) && g.code in Run(s, steps).server
    ensures var before, since := Run(s, steps[..i]).server, LastSubmitted(steps[i + 1..], g.code);
            Run(s, steps).server[g.code].details == g.details <==>
            if since.Some? then since == Some(g.details)
            else IsPending(before, g.code) ==> before[g.code].details == g.details
  {
    hide Enabled;
    hide Next;
    CanRunPrefix(s, steps, i);
    CanRunPrefix(s, steps, i + 1);
    assert steps[..i + 1][..i] == steps[..i];
    var before := Run(s, steps[..i]);
    PushLeaves(s, steps, i, g);
    HeldSince(s, steps, i + 1, g.code);
  }

  lemma PushLeaves(s: State, steps: seq<Step>, i: nat, g: Guest)
    requires UniqueCodes(s.guests) && CanRun(s, steps) && i < |steps|
    requires g in Run(s, steps).guests && Accepts(steps[i], g.code)
    requires CanRun(s, steps[..i]) && CanRun(s, steps[..i + 1]) && steps[..i + 1][..i] == steps[..i]
    requires Enabled(Run(s, steps[..i]), steps[i])
    ensures var before, after := Run(s, steps[..i]).server, Run(s, steps[..i + 1]).server;
            g.code in after &&
            after[g.code].details == if IsPending(before, g.code) then before[g.code].details else g.details
  {
    var before, page := Run(s, steps[..i]), steps[i].page;
    GuestsStay(s, steps);
    GuestsStay(s, steps[..i]);
    forall h | h in page && h.code == g.code ensures h.details == g.details {
      SameCodeSameDetails(s.guests, Run(s, steps).guests, before.guests, g, h);
    }
    StoreHolds(before.server, page, g.code, g.details);
  }

  /** A first run over one due guest that the server does not store: the guest is marked exported all the same. */
  lemma UnstoredGuestIsMarked(g: Guest, held: Server)
    requires IsDue(g) && Upsert(held, g) == held
    ensures var s := State([g], false, held, Idle);
            var steps := [Start, WriteMarker, Push([g], true, true), Mark, Finish];
            CanRun(s, steps) && Run(s, steps) == State([g.(exported := true)], true, held, Idle)
  {
    hide Upsert;
    var s0 := State([g], false, held, Idle);
    var s1 := State([g], false, held, AfterReset);
    var s2 := State([g], true, held, AtLoop);
    var s3 := State([g], true, held, AfterPush({g.code}));
    var s4 := State([g.(exported := true)], true, held, AtLoop);
    var push := Push([g], true, true);
    StoreOne(held, g);
    assert Codes([g]) == {g.code};
    assert g in s2.guests;
    NoneDue(s4.guests);
    Take(s0, [], s0, Start);
    Take(s0, [Start], s1, WriteMarker);
    assert [Start] + [WriteMarker] == [Start, WriteMarker];
    Take(s0, [Start, WriteMarker], s2, push);
    assert [Start, WriteMarker] + [push] == [Start, WriteMarker, push];
    hide Reaches;
    Take(s0, [Start, WriteMarker, push], s3, Mark);
    assert [Start, WriteMarker, push] + [Mark] == [Start, WriteMarker, push, Mark];
    Take(s0, [Start, WriteMarker, push, Mark], s4, Finish);
    assert [Start, WriteMarker, push, Mark] + [Finish] == [Start, WriteMarker, push, Mark, Finish];
    ReachesMeans(s0, [Start, WriteMarker, push, Mark, Finish], Next(s4, Finish));
  }

  /**
   * A guest that corrects its data online before the first export: the push is accepted, the guest is marked
   * exported, and the server keeps what the guest submitted.
   */
  lemma PendingGuestIsSkipped(code: string, ours: string, online: string)
    ensures var g := Guest(code, ours, true, false);
            var s := State([g], false, map[code := Held(online, true)], Idle);
            var steps := [Start, WriteMarker, Push([g], true, true), Mark, Finish];
            && CanRun(s, steps)
            && Run(s, steps).guests == [g.(exported := true)]
            && Run(s, steps).server == map[code := Held(online, true)]
  {
    hide CanRun;
    hide Run;
    UnstoredGuestIsMarked(Guest(code, ours, true, false), map[code := Held(online, true)]);
  }

  /** A guest without a code: it is marked exported, and the server never hears of it. */
  lemma CodelessGuestIsLost(details: string, held: Server)
    ensures var g := Guest("", details, true, false);
            var s := State([g], false, held, Idle);
            var steps := [Start, WriteMarker, Push([g], true, true), Mark, Finish];
            && CanRun(s, steps)
            && Run(s, steps).guests == [g.(exported := true)]
            && Run(s, steps).server == held
  {
    hide CanRun;
    hide Run;
    UnstoredGuestIsMarked(Guest("", details, true, false), held);
  }

  lemma ReachesMeans(from: State, steps: seq<Step>, to: State)
    requires Reaches(from, steps, to)
    ensures CanRun(from, steps) && Run(from, steps) == to
  {
  }

  lemma StoreOne(server: Server, g: Guest)
    ensures Store(server, [g]) == Upsert(server, g)
  {
    assert [g][..0] == [];
  }

  lemma {:induction false} NoneDue(gs: seq<Guest>)
    ensures Due(gs) == [] <==> forall g <- gs :: !IsDue(g)
  {
    if gs != [] {
      NoneDue(gs[1..]);
      assert gs == [gs[0]] + gs[1..];
    }
  }

  /**
   * A run that ends normally has had every eligible guest with a code accepted by the server, and no other, whatever
   * the runs before it did.
   */
  lemma FinishedRunDeliversAll(s: State, steps: seq<Step>, g: Guest)
    requires UniqueCodes(s.guests) && !s.marker && s.place.Idle?
    requires CanRun(s, steps + [Finish])
    ensures CanRun(s, steps)
    ensures g in Run(s, steps).guests && g.eligible ==>
              && (g.code != "" <==> exists i :: 0 <= i < |steps| && Accepts(steps[i], g.code))
              && (g.code != "" ==> g.code in Run(s, steps).server)
  {
    assert (steps + [Finish])[..|steps|] == steps;
    AlwaysSound(s, steps);
    NoneDue(Run(s, steps).guests);
    if g in Run(s, steps).guests && g.eligible {
      assert !IsDue(g);
      NoGuestIsLost(s, steps, g);
    }
  }

  /** Guests still to be exported, as the loop's measure: marking a page makes them fewer by the page's guests. */
  lemma {:induction false} MarkingShrinks(gs: seq<Guest>, codes: set<string>)
    ensures Due(MarkExported(gs, codes)) == DueExcept(gs, codes)
    ensures |DueExcept(gs, codes)| <= |Due(gs)|
    ensures (exists g <- gs :: IsDue(g) && g.code in codes) ==> |DueExcept(gs, codes)| < |Due(gs)|
  {
    if gs != [] {
      MarkingShrinks(gs[1..], codes);
      assert MarkExported(gs, codes)[1..] == MarkExported(gs[1..], codes);
      assert gs == [gs[0]] + gs[1..];
    }
  }

  function DueExcept(gs: seq<Guest>, codes: set<string>): seq<Guest> {
    if gs == [] then []
    else (if IsDue(gs[0]) && gs[0].code !in codes then [gs[0]] else []) + DueExcept(gs[1..], codes)
  }

  /** Whatever page the database hands out, one turn of the loop strictly shrinks what is due: it must end. */
  lemma LoopMakesProgress(s: State, page: seq<Guest>)
    requires s.place.AtLoop? && IsPage(s.guests, page)
    ensures |Due(Next(Next(s, Push(page, true, true)), Mark).guests)| < |Due(s.guests)|
  {
    assert page[0] in page;
    assert page[0].code in Codes(page);
    MarkingShrinks(s.guests, Codes(page));
  }

  // ----- One run of the guest job -----

  function FirstOf<T>(xs: seq<T>, n: nat): seq<T> {
    if |xs| <= n then xs else xs[..n]
  }

  lemma {:induction false} DueAreDue(gs: seq<Guest>, g: Guest)
    ensures g in Due(gs) <==> g in gs && IsDue(g)
  {
    if gs != [] {
      DueAreDue(gs[1..], g);
      assert gs == [gs[0]] + gs[1..];
    }
  }

  /** What is due: the guests whom the hotel exports and has not marked yet. */
  lemma DueIff(gs: seq<Guest>, g: Guest)
    ensures g in Due(gs) <==> g in gs && g.eligible && !g.exported
  {
    DueAreDue(gs, g);
  }

  lemma HeadCodeIsAlone(gs: seq<Guest>)
    requires gs != [] && UniqueCodes(gs)
    ensures UniqueCodes(gs[1..])
    ensures forall g <- gs[1..] :: g.code != gs[0].code
    ensures gs[0].code !in Codes(Due(gs[1..]))
  {
    forall g | g in Due(gs[1..]) ensures g.code != gs[0].code {
      DueAreDue(gs[1..], g);
    }
  }

  lemma CodesOfTake(g: Guest, rest: seq<Guest>, k: nat)
    requires 0 < k <= |rest| + 1
    ensures ([g] + rest)[k..] == rest[k - 1..]
    ensures Codes(([g] + rest)[..k]) == Codes(rest[..k - 1]) + {g.code}
  {
    assert ([g] + rest)[..k] == [g] + rest[..k - 1];
  }

  /** Marking the first due guests leaves exactly the others due. */
  lemma {:induction false} DueCodes(gs: seq<Guest>, k: nat)
    requires UniqueCodes(gs) && k <= |Due(gs)|
    ensures DueExcept(gs, Codes(Due(gs)[..k])) == Due(gs)[k..]
  {
    if gs != [] {
      HeadCodeIsAlone(gs);
      hide UniqueCodes;
      var rest := Due(gs[1..]);
      if !IsDue(gs[0]) {
        DueCodes(gs[1..], k);
        assert Due(gs) == rest;
      } else if k == 0 {
        DueCodes(gs[1..], 0);
        assert Due(gs)[..0] == [] && rest[..0] == [];
      } else {
        DueCodes(gs[1..], k - 1);
        SkipCode(gs[1..], Codes(rest[..k - 1]), gs[0].code);
        CodesOfTake(gs[0], rest, k);
      }
    }
  }

  lemma {:induction false} SkipCode(gs: seq<Guest>, codes: set<string>, code: string)
    requires forall g <- gs :: g.code != code
    ensures DueExcept(gs, codes + {code}) == DueExcept(gs, codes)
  {
    if gs != [] {
      assert gs[0] in gs;
      SkipCode(gs[1..], codes, code);
    }
  }

  class GuestJob {
    var guests: seq<Guest>
    var marker: bool
    var server: Server

    constructor (guests: seq<Guest>, marker: bool, server: Server)
      ensures this.guests == guests && this.marker == marker && this.server == server
    {
      this.guests, this.marker, this.server := guests, marker, server;
    }

    ghost function At(place: Place): State
      reads this
    {
      State(guests, marker, server, place)
    }

    /** The first-run reset and its marker. */
    method PrepareFirstRun() returns (ghost steps: seq<Step>)
      modifies this
      ensures marker && server == old(server)
      ensures guests == if old(marker) then old(guests) else ResetAll(old(guests))
      ensures Reaches(old(At(Idle)), steps, At(AtLoop))
    {
      steps := [];
      ghost var start := At(Idle);
      Take(start, steps, start, Start);
      steps := steps + [Start];
      if !marker {
        guests := ResetAll(guests);
        Take(start, steps, At(AfterReset), WriteMarker);
        steps := steps + [WriteMarker];
        marker := true;
      }
    }

    /**
     * One run in which the first `answers` pushes succeed and a later one fails. The pages pushed are the due
     * guests in table order, full except perhaps the last; a run that ends normally pushed them all, once each.
     * It goes by the steps of the machine above.
     */
    method SyncGuests(answers: nat) returns (pages: seq<seq<Guest>>, ok: bool, ghost steps: seq<Step>)
      requires UniqueCodes(guests)
      modifies this
      ensures marker
      ensures var due := Due(if old(marker) then old(guests) else ResetAll(old(guests)));
              && InPages(pages, 100)
              && Flatten(pages) <= due
              && Due(guests) == due[|Flatten(pages)|..]
              && (ok ==> Flatten(pages) == due)
              && (!ok ==> |pages| == answers && Flatten(pages) != due)
              && server == Store(old(server), Flatten(pages))
      ensures Reaches(old(At(Idle)), steps, At(Idle))
    {
      hide Reaches;
      hide MarkExported;
      hide UniqueCodes;
      hide Due;
      hide Codes;
      hide Store;
      ghost var start := At(Idle);
      steps := PrepareFirstRun();
      ResetKeepsCodes(old(guests));
      ghost var due := Due(guests);
      pages := [];
      StoreNothing(server);
      while true
        invariant marker && UniqueCodes(guests)
        invariant |pages| <= answers
        invariant InPages(pages, BATCH)
        invariant Flatten(pages) + Due(guests) == due
        invariant Due(guests) != [] ==> forall i :: 0 <= i < |pages| ==> |pages[i]| == BATCH
        invariant server == Store(old(server), Flatten(pages))
        invariant Reaches(start, steps, At(AtLoop))
        decreases |Due(guests)|
      {
        var page := FirstOf(Due(guests), BATCH);
        if page == [] {
          Take(start, steps, At(AtLoop), Finish);
          return pages, true, steps + [Finish];
        }
        TurnOfPage(guests, page);
        if |pages| == answers {
          Take(start, steps, At(AtLoop), Push(page, false, false));
          return pages, false, steps + [Push(page, false, false)];
        }
        Take(start, steps, At(AtLoop), Push(page, true, true));
        steps := steps + [Push(page, true, true)];
        Assoc(Flatten(pages), page, Due(guests)[|page|..]);
        FlattenSnoc(pages, page);
        StoreAppend(old(server), Flatten(pages), page);
        server := Store(server, page);
        pages := pages + [page];
        Take(start, steps, At(AfterPush(Codes(page))), Mark);
        steps := steps + [Mark];
        guests := MarkExported(guests, Codes(page));
      }
    }
  }

  /** The steps can happen, one after the other, and lead from one state to the other. */
  predicate Reaches(from: State, steps: seq<Step>, to: State) {
    CanRun(from, steps) && Run(from, steps) == to
  }

  lemma Take(from: State, steps: seq<Step>, to: State, step: Step)
    requires (steps == [] && from == to) || Reaches(from, steps, to)
    requires Enabled(to, step)
    ensures Reaches(from, steps + [step], Next(to, step))
  {
    var all := steps + [step];
    assert all[..|all| - 1] == steps && all[|all| - 1] == step;
    assert CanRun(from, steps) && Run(from, steps) == to;
    hide Enabled;
    hide Next;
    assert CanRun(from, all);
  }

  lemma DuePage(gs: seq<Guest>, page: seq<Guest>)
    requires page == FirstOf(Due(gs), BATCH) && page != []
    ensures IsPage(gs, page)
  {
    forall g | g in page ensures g in gs && IsDue(g) {
      DueAreDue(gs, g);
    }
  }

  lemma TurnOfPage(gs: seq<Guest>, page: seq<Guest>)
    requires UniqueCodes(gs) && page == FirstOf(Due(gs), BATCH)
    ensures |page| <= |Due(gs)| && Due(gs) == page + Due(gs)[|page|..]
    ensures |page| <= BATCH && (|page| < BATCH ==> Due(gs)[|page|..] == [])
    ensures Due(MarkExported(gs, Codes(page))) == Due(gs)[|page|..]
    ensures UniqueCodes(MarkExported(gs, Codes(page)))
    ensures page != [] ==> IsPage(gs, page)
  {
    if page != [] {
      DuePage(gs, page);
    }
    hide Due;
    hide DueExcept;
    hide UniqueCodes;
    hide IsPage;
    assert page == Due(gs)[..|page|];
    DueCodes(gs, |page|);
    MarkingShrinks(gs, Codes(page));
    MarkKeepsCodes(gs, Codes(page));
  }

  lemma StoreNothing(server: Server)
    ensures Store(server, Flatten<Guest>([])) == server
  {
  }

  lemma ResetKeepsCodes(gs: seq<Guest>)
    requires UniqueCodes(gs)
    ensures UniqueCodes(ResetAll(gs))
  {
  }

  lemma MarkKeepsCodes(gs: seq<Guest>, codes: set<string>)
    requires UniqueCodes(gs)
    ensures UniqueCodes(MarkExported(gs, codes))
  {
  }

  lemma {:induction false} StoreAppend(server: Server, a: seq<Guest>, b: seq<Guest>)
    ensures Store(server, a + b) == Store(Store(server, a), b)
  {
    if b == [] {
      assert a + b == a;
    } else {
      StoreAppend(server, a, b[..|b| - 1]);
      assert (a + b)[..|a + b| - 1] == a + b[..|b| - 1];
    }
  }
}
