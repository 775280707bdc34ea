/**
 * Price Compare's one-editor-at-a-time lock on a shared list (apps/price-compare/app/server.js), free again once
 * untouched for the lease.
 */
module EditLock {
  import opened Common

  const LEASE := 90_000

  datatype User = User(sub: string, email: string, name: string)

  datatype Lock = Lock(sub: string, email: string, name: string, touchedAt: int)

  type Locks = map<string, Lock>

  /**
   * What reaches the lock: a mutating request on a list that is shared or private at that moment, a look
   * at the lock, taking it (by force or not), releasing it, and a restart of the server.
   */
  datatype Event =
    | Write(list: string, user: User, shared: bool)
    | Look(list: string)
    | Take(list: string, user: User, steal: bool)
    | Release(list: string, user: User)
    | Restart

  /** An event and the clock reading it is served at. */
  datatype Timed = Timed(event: Event, now: int)

  /** The lock that counts: an expired one is as good as none. */
  function Live(locks: Locks, list: string, now: int): Option<Lock> {
    if list in locks && now - locks[list].touchedAt <= LEASE then Some(locks[list]) else None
  }

  function Fresh(user: User, now: int): Lock {
    Lock(user.sub, user.email, if user.name != "" then user.name else user.email, now)
  }

  predicate HeldByAnother(locks: Locks, list: string, user: User, now: int) {
    Live(locks, list, now).Some? && Live(locks, list, now).value.sub != user.sub
  }

  predicate Granted(locks: Locks, t: Timed) {
    match t.event
    case Write(list, user, shared) => !shared || !HeldByAnother(locks, list, user, t.now)
    case Take(list, user, steal) => steal || !HeldByAnother(locks, list, user, t.now)
    case _ => true
  }

  /** Looking a list's lock up also forgets it once it has expired. */
  function Sweep(locks: Locks, list: string, now: int): Locks {
    if Live(locks, list, now).None? then locks - {list} else locks
  }

  function Step(locks: Locks, t: Timed): Locks {
    match t.event
    case Write(list, user, shared) =>
      if !shared then locks else if Granted(locks, t) then locks[list := Fresh(user, t.now)] else locks
    case Look(list) => Sweep(locks, list, t.now)
    case Take(list, user, _) => if Granted(locks, t) then locks[list := Fresh(user, t.now)] else locks
    case Release(list, user) => if list in locks && locks[list].sub == user.sub then locks - {list} else locks
    case Restart => map[]
  }

  function Run(locks: Locks, es: seq<Timed>): Locks {
    if es == [] then locks else Step(Run(locks, es[..|es| - 1]), es[|es| - 1])
  }

  /** The clock never goes back. */
  predicate Monotone(es: seq<Timed>) {
    forall i, j :: 0 <= i < j < |es| ==> es[i].now <= es[j].now
  }

  /** The k-th event of the run was let through. */
  predicate GrantedAt(locks: Locks, es: seq<Timed>, k: nat)
    requires k < |es|
  {
    Granted(Run(locks, es[..k]), es[k])
  }

  lemma RunStep(locks: Locks, es: seq<Timed>, k: nat)
    requires k < |es|
    ensures Run(locks, es[..k + 1]) == Step(Run(locks, es[..k]), es[k])
  {
    assert es[..k + 1][..k] == es[..k];
  }

  // ----- Who holds the lock -----

  /** The event makes the user the holder, if it is let through. */
  predicate Claims(e: Event, list: string) {
    ((e.Write? && e.shared) || e.Take?) && e.list == list
  }

  /** The event takes the lock away from its holder. */
  predicate Ousts(e: Event, list: string, holder: string) {
    match e
    case Release(l, user) => l == list && user.sub == holder
    case Take(l, user, steal) => l == list && steal && user.sub != holder
    case Restart => true
    case _ => false
  }

  /** A holder whose lease is running loses the lock exactly by releasing it, a steal, or a restart. */
  lemma HolderIsReplacedOnlyBy(locks: Locks, t: Timed, list: string)
    requires Live(locks, list, t.now).Some?
    ensures var holder := Live(locks, list, t.now).value.sub;
            var after := Live(Step(locks, t), list, t.now);
            (after.None? || after.value.sub != holder) <==> Ousts(t.event, list, holder)
  {
  }

  /** A release frees the user's own lock on that list and touches no other lock. */
  lemma ReleaseFreesOnlyOwn(locks: Locks, list: string, user: User, now: int)
    ensures var after := Step(locks, Timed(Release(list, user), now));
            && (list in after ==> after[list].sub != user.sub)
            && (forall l :: l in after <==> l in locks && (l != list || locks[l].sub != user.sub))
            && (forall l :: l in after ==> after[l] == locks[l])
  {
  }

  /** The user's lease on the list reaches at least until `since + LEASE`, or that moment is past. */
  predicate Covered(locks: Locks, list: string, sub: string, since: int, now: int) {
    now - since > LEASE || (list in locks && locks[list].sub == sub && locks[list].touchedAt >= since)
  }

  lemma CoveredStays(locks: Locks, t: Timed, list: string, sub: string, since: int, now: int)
    requires Covered(locks, list, sub, since, now) && now <= t.now && since <= t.now
    requires !Ousts(t.event, list, sub)
    ensures Covered(Step(locks, t), list, sub, since, t.now)
  {
  }

  lemma ClaimCovers(locks: Locks, t: Timed, list: string)
    requires Claims(t.event, list) && Granted(locks, t)
    ensures Covered(Step(locks, t), list, t.event.user.sub, t.now, t.now)
  {
  }

  lemma {:induction false} CoveredThroughout(locks: Locks, es: seq<Timed>, i: nat, j: nat, list: string)
    requires Monotone(es) && i < j <= |es|
    requires Claims(es[i].event, list) && GrantedAt(locks, es, i)
    requires forall k :: i < k < j ==> !Ousts(es[k].event, list, es[i].event.user.sub)
    ensures Covered(Run(locks, es[..j]), list, es[i].event.user.sub, es[i].now, es[j - 1].now)
  {
    hide Step;
    hide Granted;
    hide Covered;
    hide Ousts;
    RunStep(locks, es, j - 1);
    if j - 1 == i {
      ClaimCovers(Run(locks, es[..i]), es[i], list);
    } else {
      CoveredThroughout(locks, es, i, j - 1, list);
      CoveredStays(Run(locks, es[..j - 1]), es[j - 1], list, es[i].event.user.sub, es[i].now, es[j - 2].now);
    }
  }

  /**
   * Mutual exclusion by lease: whatever else happens on this and other lists, two admitted claims on one
   * shared list by different users lie more than a lease apart, unless the first user released the lock,
   * somebody stole it, or the server restarted in between.
   */
  lemma LeaseExclusion(locks: Locks, es: seq<Timed>, i: nat, j: nat, list: string)
    requires Monotone(es) && i < j < |es|
    requires Claims(es[i].event, list) && GrantedAt(locks, es, i)
    requires Claims(es[j].event, list) && GrantedAt(locks, es, j)
    requires es[i].event.user.sub != es[j].event.user.sub
    requires forall k :: i < k <= j ==> !Ousts(es[k].event, list, es[i].event.user.sub)
    ensures es[j].now - es[i].now > 90_000
  {
    CoveredThroughout(locks, es, i, j, list);
  }

  /** A claim that could have made the holder of the lock at `now`. */
  predicate Explains(locks: Locks, es: seq<Timed>, i: nat, list: string, lock: Lock) {
    i < |es| && Claims(es[i].event, list) && GrantedAt(locks, es, i) && lock == Fresh(es[i].event.user, es[i].now)
  }

  /** Every lock in the table was written by an admitted claim of its holder, at the time it is stamped with. */
  lemma {:induction false} LocksComeFromClaims(es: seq<Timed>, list: string)
    requires list in Run(map[], es)
    ensures exists i: nat :: Explains(map[], es, i, list, Run(map[], es)[list])
  {
    if es != [] {
      var n := |es| - 1;
      var was := Run(map[], es[..n]);
      if list in was && Step(was, es[n])[list] == was[list] {
        LocksComeFromClaims(es[..n], list);
        var i: nat :| Explains(map[], es[..n], i, list, was[list]);
        assert es[..n][..i] == es[..i];
        assert Explains(map[], es, i, list, Run(map[], es)[list]);
      } else {
        assert Explains(map[], es, n, list, Run(map[], es)[list]);
      }
    }
  }

  /** Whoever is refused is told the holder's address, and the holder's name or else that address again. */
  predicate NamesHolder(locks: Locks, list: string, holder: User, since: int) {
    && list in locks
    && locks[list].sub == holder.sub && locks[list].email == holder.email && locks[list].touchedAt == since
    && (holder.name != "" ==> locks[list].name == holder.name)
    && (holder.name == "" ==> locks[list].name == holder.email)
  }

  /**
   * No refusal without a cause: when a request is refused, the lock was written by an admitted claim of
   * another user at most a lease ago. So a lock nobody touched for longer than that blocks nobody.
   */
  lemma RefusalHasRecentHolder(es: seq<Timed>, j: nat)
    requires j < |es| && !GrantedAt(map[], es, j)
    ensures exists i :: 0 <= i < j && Claims(es[i].event, es[j].event.list) && GrantedAt(map[], es, i)
                        && es[i].event.user.sub != es[j].event.user.sub && es[j].now - es[i].now <= 90_000
                        && NamesHolder(Run(map[], es[..j]), es[j].event.list, es[i].event.user, es[i].now)
  {
    var list := es[j].event.list;
    var locks := Run(map[], es[..j]);
    LocksComeFromClaims(es[..j], list);
    var i: nat :| Explains(map[], es[..j], i, list, locks[list]);
    assert es[..j][..i] == es[..i];
    assert GrantedAt(map[], es, i);
  }

  // ----- Forgetting expired locks is invisible -----

  ghost predicate SameFrom(a: Locks, b: Locks, now: int) {
    forall list, at :: at >= now ==> Live(a, list, at) == Live(b, list, at)
  }

  lemma SameAnswers(a: Locks, b: Locks, t: Timed, now: int)
    requires SameFrom(a, b, now) && now <= t.now
    ensures Granted(a, t) == Granted(b, t)
  {
  }

  lemma SameAfter(a: Locks, b: Locks, t: Timed, now: int)
    requires SameFrom(a, b, now) && now <= t.now
    ensures SameFrom(Step(a, t), Step(b, t), t.now)
  {
    SameAnswers(a, b, t, now);
    forall list, at | at >= t.now
      ensures Live(Step(a, t), list, at) == Live(Step(b, t), list, at)
    {
      assert Live(a, list, at) == Live(b, list, at);
      assert Live(a, list, t.now) == Live(b, list, t.now);
    }
  }

  lemma LookIsInvisible(a: Locks, b: Locks, t: Timed, now: int)
    requires SameFrom(a, b, now) && now <= t.now && t.event.Look?
    ensures SameFrom(Step(a, t), b, t.now)
  {
    forall list, at | at >= t.now
      ensures Live(Step(a, t), list, at) == Live(b, list, at)
    {
      assert Live(a, list, at) == Live(b, list, at);
    }
  }

  function WithoutLooks(es: seq<Timed>): seq<Timed> {
    if es == [] then []
    else WithoutLooks(es[..|es| - 1]) + if es[|es| - 1].event.Look? then [] else [es[|es| - 1]]
  }

  /** Looking at locks, which also deletes expired ones, never changes who is let in afterwards. */
  lemma {:induction false} LookingIsHarmless(locks: Locks, es: seq<Timed>, next: Timed)
    requires Monotone(es + [next])
    ensures SameFrom(Run(locks, es), Run(locks, WithoutLooks(es)), next.now)
    ensures Granted(Run(locks, es), next) == Granted(Run(locks, WithoutLooks(es)), next)
  {
    hide Step;
    hide Granted;
    hide Live;
    if es != [] {
      var n := |es| - 1;
      var last := es[n];
      var p, q := Run(locks, es[..n]), Run(locks, WithoutLooks(es[..n]));
      assert forall i :: 0 <= i < |es| ==> (es + [next])[i] == es[i];
      assert (es + [next])[n + 1] == next;
      assert es[..n] + [last] == es;
      LookingIsHarmless(locks, es[..n], last);
      if last.event.Look? {
        LookIsInvisible(p, q, last, last.now);
        assert WithoutLooks(es) == WithoutLooks(es[..n]);
      } else {
        SameAfter(p, q, last, last.now);
        assert WithoutLooks(es)[..|WithoutLooks(es)| - 1] == WithoutLooks(es[..n]);
      }
    }
    SameAnswers(Run(locks, es), Run(locks, WithoutLooks(es)), next, next.now);
  }

  // ----- The server's table -----

  class EditLocks {
    var locks: map<string, Lock>

    constructor ()
      ensures locks == map[]
    {
      locks := map[];
    }

    method CurrentLock(list: string, now: int) returns (l: Option<Lock>)
      modifies this
      ensures l == Live(old(locks), list, now)
      ensures locks == Step(old(locks), Timed(Look(list), now))
    {
      if list !in locks {
        return None;
      }
      l := Some(locks[list]);
      if now - l.value.touchedAt > LEASE {
        locks := locks - {list};
        l := None;
      }
    }

    /** Some other user's lock when the request is refused; the table may forget an expired lock on the way. */
    method RequireEditLock(list: string, user: User, shared: bool, now: int) returns (heldBy: Option<Lock>)
      modifies this
      ensures heldBy.None? <==> Granted(old(locks), Timed(Write(list, user, shared), now))
      ensures heldBy.Some? ==> heldBy == Live(old(locks), list, now) && heldBy.value.sub != user.sub
      ensures locks == Step(old(locks), Timed(Write(list, user, shared), now))
    {
      if !shared {
        return None;
      }
      var l := CurrentLock(list, now);
      if l.Some? && l.value.sub != user.sub {
        return l;
      }
      locks := locks[list := Fresh(user, now)];
      return None;
    }

    method PutLock(list: string, user: User, steal: bool, now: int) returns (heldBy: Option<Lock>)
      modifies this
      ensures heldBy.None? <==> Granted(old(locks), Timed(Take(list, user, steal), now))
      ensures heldBy.Some? ==> heldBy == Live(old(locks), list, now) && heldBy.value.sub != user.sub
      ensures locks == Step(old(locks), Timed(Take(list, user, steal), now))
    {
      var l := CurrentLock(list, now);
      if l.Some? && l.value.sub != user.sub && !steal {
        return l;
      }
      locks := locks[list := Fresh(user, now)];
      return None;
    }

    method DeleteLock(list: string, user: User)
      modifies this
      ensures forall now :: locks == Step(old(locks), Timed(Release(list, user), now))
      ensures list in locks ==> locks[list].sub != user.sub
      ensures forall l :: l in locks <==> l in old(locks) && (l != list || old(locks)[l].sub != user.sub)
      ensures forall l :: l in locks ==> locks[l] == old(locks)[l]
    {
      if list in locks && locks[list].sub == user.sub {
        locks := locks - {list};
      }
    }
  }
}
