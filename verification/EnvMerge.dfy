/**
 * Saving an app's configuration (backend/src/services/appEnv.ts): values are merged into the lines of its
 * `.env`, unset secrets are generated, and everything else in the file stays as it was.
 */
module EnvMerge {
  import opened Common
  import opened Strings
  import opened EnvText

  /** The updates still to be written; the order they were given in is kept beside them. */
  type Updates = map<string, string>

  predicate Hits(line: string, p: Updates) {
    EntryOf(line).Some? && EntryOf(line).value.key in p
  }

  function KeyIn(line: string, p: Updates): string
    requires Hits(line, p)
    ensures KeyIn(line, p) in p
  {
    EntryOf(line).value.key
  }

  function Rewritten(line: string, p: Updates): string {
    if Hits(line, p) then Assignment(KeyIn(line, p), p[KeyIn(line, p)]) else line
  }

  /** The updates left once this line has taken its own. */
  function Left(line: string, p: Updates): Updates {
    if Hits(line, p) then p - {KeyIn(line, p)} else p
  }

  function Appended(order: seq<string>, p: Updates): seq<string> {
    if order == [] then []
    else (if order[0] in p then [Assignment(order[0], p[order[0]])] else []) + Appended(order[1..], p)
  }

  /** The merged lines: each update goes to the first line of its key, or after the last line. */
  function Merge(lines: seq<string>, order: seq<string>, p: Updates): seq<string> {
    if lines == [] then Appended(order, p)
    else [Rewritten(lines[0], p)] + Merge(lines[1..], order, Left(lines[0], p))
  }

  function Unwritten(order: seq<string>, p: Updates): seq<string> {
    if order == [] then [] else (if order[0] in p then [order[0]] else []) + Unwritten(order[1..], p)
  }

  /** The keys reported as changed. */
  function Changed(lines: seq<string>, order: seq<string>, p: Updates): seq<string> {
    if lines == [] then Unwritten(order, p)
    else (if Hits(lines[0], p) then [KeyIn(lines[0], p)] else []) + Changed(lines[1..], order, Left(lines[0], p))
  }

  /** Updates as they reach the merge: one order entry per key, key names, and values that are worth writing. */
  predicate Proper(order: seq<string>, p: Updates) {
    Distinct(order) && (set k | k in order) == p.Keys && Writable(p)
  }

  predicate Writable(p: Updates) {
    forall k <- p :: KeyName(k) && Trimmed(p[k])
  }

  predicate OneLiners(p: Updates) {
    forall k <- p :: OneLine(p[k])
  }

  function Occurs(lines: seq<string>, key: string): nat {
    if lines == [] then 0 else (if HasKey(lines[0], key) then 1 else 0) + Occurs(lines[1..], key)
  }

  // ----- What stays -----

  /** Every line keeps its place; it changes only if it is the first of a key that is being written. */
  lemma {:induction false} OtherLinesStay(lines: seq<string>, order: seq<string>, p: Updates, i: nat)
    requires i < |lines|
    ensures |Merge(lines, order, p)| >= |lines|
    ensures Merge(lines, order, p)[i] ==
            if Hits(lines[i], p) && Occurs(lines[..i], KeyIn(lines[i], p)) == 0 then Rewritten(lines[i], p) else lines[i]
  {
    hide EntryOf;
    MergeIsLonger(lines, order, p);
    if i > 0 {
      var left := Left(lines[0], p);
      OtherLinesStay(lines[1..], order, left, i - 1);
      assert lines[..i][1..] == lines[1..][..i - 1];
      assert lines[1..][i - 1] == lines[i];
    }
  }

  lemma {:induction false} MergeIsLonger(lines: seq<string>, order: seq<string>, p: Updates)
    ensures |Merge(lines, order, p)| >= |lines|
  {
    if lines != [] {
      MergeIsLonger(lines[1..], order, Left(lines[0], p));
    }
  }

  // ----- What reads back -----

  lemma {:induction false} LookupAbsent(lines: seq<string>, key: string)
    ensures Lookup(lines, key).None? <==> Occurs(lines, key) == 0
  {
    hide EntryOf;
    if lines != [] {
      LookupAbsent(lines[1..], key);
    }
  }

  // ----- What is reported -----

  lemma {:induction false} UnwrittenOnce(order: seq<string>, p: Updates)
    requires Distinct(order)
    ensures Distinct(Unwritten(order, p))
    ensures forall k :: k in Unwritten(order, p) <==> k in order && k in p
  {
    if order != [] {
      UnwrittenOnce(order[1..], p);
      assert order[0] !in order[1..];
      NewInFront(order[0], Unwritten(order[1..], p));
    }
  }

  lemma NewInFront(k: string, ks: seq<string>)
    requires Distinct(ks) && k !in ks
    ensures Distinct([k] + ks)
  {
  }

  /** Every written key is reported, once, and nothing else is. */
  lemma {:induction false} ReportedOnce(lines: seq<string>, order: seq<string>, p: Updates)
    requires Distinct(order) && forall k <- p :: k in order
    ensures Distinct(Changed(lines, order, p))
    ensures forall k :: k in Changed(lines, order, p) <==> k in p
  {
    hide EntryOf;
    if lines == [] {
      UnwrittenOnce(order, p);
    } else {
      var left := Left(lines[0], p);
      ReportedOnce(lines[1..], order, left);
      if Hits(lines[0], p) {
        NewInFront(KeyIn(lines[0], p), Changed(lines[1..], order, left));
      }
    }
  }
}
