/** The hotel agent's deduplicating, batching push of reservations (apps/hotel/agent/HotelSync.cs). */
module ReservationSync {
  import opened Common

  const BATCH := 100

  datatype Key = Key(unit: string, number: string, line: int)

  datatype Reservation = Reservation(key: Key, details: string)

  function Keys(rs: seq<Reservation>): set<Key> {
    set r | r in rs :: r.key
  }

  /** The rows in scan order, each key only where it occurs first. */
  function Dedup(rs: seq<Reservation>): seq<Reservation> {
    if rs == [] then []
    else
      var init, last := rs[..|rs| - 1], rs[|rs| - 1];
      if last.key in Keys(init) then Dedup(init) else Dedup(init) + [last]
  }

  lemma {:induction false} DedupKeepsKeys(rs: seq<Reservation>)
    ensures Keys(Dedup(rs)) == Keys(rs)
  {
    if rs != [] {
      var init, last := rs[..|rs| - 1], rs[|rs| - 1];
      DedupKeepsKeys(init);
      assert rs == init + [last];
      assert Keys(rs) == Keys(init) + {last.key};
      assert Keys(Dedup(init) + [last]) == Keys(Dedup(init)) + {last.key};
    }
  }

  predicate OncePerKey(rs: seq<Reservation>) {
    forall i, j :: 0 <= i < j < |rs| ==> rs[i].key != rs[j].key
  }

  /** No key survives twice. */
  lemma {:induction false} DedupOncePerKey(rs: seq<Reservation>)
    ensures OncePerKey(Dedup(rs))
  {
    if rs != [] {
      var init, last := rs[..|rs| - 1], rs[|rs| - 1];
      DedupOncePerKey(init);
      if last.key !in Keys(init) {
        DedupKeepsKeys(init);
        forall k | 0 <= k < |Dedup(init)| ensures Dedup(init)[k].key != last.key {
          assert Dedup(init)[k].key in Keys(Dedup(init));
        }
      }
    }
  }

  predicate ScannedFirst(rs: seq<Reservation>, i: nat) {
    i < |rs| && rs[i].key !in Keys(rs[..i])
  }

  /** What survives of a key is the row scanned first. */
  lemma {:induction false} DedupKeepsFirst(rs: seq<Reservation>, r: Reservation)
    ensures r in Dedup(rs) <==> exists i: nat :: ScannedFirst(rs, i) && rs[i] == r
  {
    hide Keys;
    if rs != [] {
      var n := |rs| - 1;
      var init, last := rs[..n], rs[n];
      DedupKeepsFirst(init, r);
      forall i: nat | i < n ensures rs[i] == init[i] && (ScannedFirst(rs, i) <==> ScannedFirst(init, i)) {
        assert rs[..i] == init[..i];
      }
      assert ScannedFirst(rs, n) <==> last.key !in Keys(init);
    }
  }

  lemma {:induction false} DedupGrows(a: seq<Reservation>, b: seq<Reservation>)
    ensures Dedup(a) <= Dedup(a + b)
  {
    if b == [] {
      assert a + b == a;
    } else {
      DedupGrows(a, b[..|b| - 1]);
      assert (a + b)[..|a + b| - 1] == a + b[..|b| - 1];
    }
  }

  class ReservationJob {
    var seen: set<Key>
    var batch: seq<Reservation>
    var pushed: seq<seq<Reservation>>
    ghost var scanned: seq<Reservation>

    constructor ()
      ensures Valid() && pushed == [] && batch == [] && scanned == []
    {
      seen, batch, pushed, scanned := {}, [], [], [];
    }

    /** Pushed and waiting rows together are what the scan so far amounts to; all pushed batches are full. */
    ghost predicate Valid()
      reads this
    {
      && seen == Keys(scanned)
      && Flatten(pushed) + batch == Dedup(scanned)
      && (forall i :: 0 <= i < |pushed| ==> |pushed[i]| == BATCH)
    }

    /** Pushes what is waiting, if anything; fails when the server takes no more than `answers` batches. */
    method Flush(answers: nat) returns (ok: bool)
      requires |pushed| <= answers
      modifies this`batch, this`pushed
      ensures |pushed| <= answers
      ensures Flatten(pushed) + batch == Flatten(old(pushed)) + old(batch)
      ensures ok ==> batch == [] && pushed == if old(batch) == [] then old(pushed) else old(pushed) + [old(batch)]
      ensures !ok ==> old(batch) != [] && batch == old(batch) && pushed == old(pushed) && |pushed| == answers
    {
      if batch == [] {
        return true;
      }
      if |pushed| == answers {
        return false;
      }
      FlattenSnoc(pushed, batch);
      pushed := pushed + [batch];
      batch := [];
      return true;
    }

    /** One window: every unit's rows in turn. */
    method Collect(window: seq<seq<Reservation>>, answers: nat) returns (ok: bool)
      requires Valid() && |batch| < BATCH && |pushed| <= answers
      modifies this
      ensures Valid() && |pushed| <= answers
      ensures ok ==> |batch| < BATCH && scanned == old(scanned) + Flatten(window)
      ensures !ok ==> batch != [] && |pushed| == answers && scanned <= old(scanned) + Flatten(window)
    {
      hide Dedup;
      hide Keys;
      for u := 0 to |window|
        invariant Valid() && |batch| < BATCH && |pushed| <= answers
        invariant scanned == old(scanned) + Flatten(window[..u])
      {
        ghost var before := scanned;
        for k := 0 to |window[u]|
          invariant Valid() && |batch| < BATCH && |pushed| <= answers
          invariant scanned == before + window[u][..k]
        {
          var r := window[u][k];
          ScanOne(scanned, r);
          scanned := scanned + [r];
          assert scanned == before + window[u][..k + 1];
          if r.key in seen {
            continue;
          }
          seen := seen + {r.key};
          Assoc(Flatten(pushed), batch, [r]);
          batch := batch + [r];
          if |batch| >= BATCH {
            ok := Flush(answers);
            if !ok {
              StoppedEarly(old(scanned), window, u, k);
              return;
            }
          }
        }
        assert window[u][..|window[u]|] == window[u];
        assert window[..u + 1] == window[..u] + [window[u]];
        FlattenSnoc(window[..u], window[u]);
        Assoc(old(scanned), Flatten(window[..u]), window[u]);
      }
      assert window[..|window|] == window;
      return true;
    }

    /**
     * The whole job over the check-in and the check-out window. When every push succeeds, the batches laid end
     * to end are the scan with repeats dropped, all full but perhaps the last and none empty; when one fails,
     * what was pushed before is a beginning of that.
     */
    method SyncReservations(checkins: seq<seq<Reservation>>, checkouts: seq<seq<Reservation>>, answers: nat)
      returns (ok: bool)
      requires Valid() && pushed == [] && batch == [] && scanned == []
      modifies this
      ensures var all := Dedup(Flatten(checkins) + Flatten(checkouts));
              && InPages(pushed, 100)
              && Flatten(pushed) <= all
              && (ok ==> Flatten(pushed) == all)
              && (!ok ==> |pushed| == answers)
    {
      hide Dedup;
      hide Keys;
      hide Flatten;
      ghost var all := Flatten(checkins) + Flatten(checkouts);
      NothingYet();
      ok := Collect(checkins, answers);
      if ok {
        ok := Collect(checkouts, answers);
      }
      PushedSoFar(pushed, batch, scanned, all);
      if ok {
        ok := Flush(answers);
      }
    }
  }

  lemma NothingYet()
    ensures forall rs: seq<Reservation> :: [] + rs == rs
  {
  }

  lemma PushedSoFar(pushed: seq<seq<Reservation>>, batch: seq<Reservation>, scanned: seq<Reservation>, all: seq<Reservation>)
    requires Flatten(pushed) + batch == Dedup(scanned) && scanned <= all
    ensures Flatten(pushed) <= Dedup(all)
    ensures scanned == all ==> Flatten(pushed) + batch == Dedup(all)
  {
    hide Dedup;
    assert all == scanned + all[|scanned|..];
    DedupGrows(scanned, all[|scanned|..]);
  }

  lemma ScanOne(scanned: seq<Reservation>, r: Reservation)
    ensures Dedup(scanned + [r]) == if r.key in Keys(scanned) then Dedup(scanned) else Dedup(scanned) + [r]
    ensures Keys(scanned + [r]) == Keys(scanned) + {r.key}
  {
    assert (scanned + [r])[..|scanned|] == scanned;
  }

  lemma StoppedEarly(before: seq<Reservation>, window: seq<seq<Reservation>>, u: nat, k: nat)
    requires u < |window| && k < |window[u]|
    ensures before + Flatten(window[..u]) + window[u][..k + 1] <= before + Flatten(window)
  {
    assert window == window[..u] + [window[u]] + window[u + 1..];
    FlattenAppend(window[..u] + [window[u]], window[u + 1..]);
    FlattenSnoc(window[..u], window[u]);
  }
}
