/**
 * Searching a text for a pattern, with or without the `^` anchor of a multi-line regular expression,
 * and how a search behaves on a text put together from whole lines: what is found in one part is found in the
 * whole, and no pattern of one line is found across the seam.
 */
module TextSearch {
  import opened Common

  /** The line terminators of a regular expression: `^` matches behind them and `.` stops before them. */
  predicate IsTerminator(c: char) {
    c == '\n' || c == '\r' || c == '\U{2028}' || c == '\U{2029}'
  }

  /** A literal text, to be found anywhere or only at the start of a line. */
  datatype Pattern = Pattern(text: string, anchored: bool)

  predicate LineStart(t: string, x: nat)
    requires x <= |t|
  {
    x == 0 || IsTerminator(t[x - 1])
  }

  predicate Hit(t: string, p: Pattern, x: nat) {
    && x + |p.text| <= |t|
    && t[x..x + |p.text|] == p.text
    && (p.anchored ==> LineStart(t, x))
  }

  /** The first hit at or after `from`. */
  function FindFrom(t: string, p: Pattern, from: nat): (r: Option<nat>)
    requires from <= |t|
    ensures r.Some? ==> r.value + |p.text| <= |t|
    decreases |t| - from
  {
    if Hit(t, p, from) then Some(from)
    else if from == |t| then None
    else FindFrom(t, p, from + 1)
  }

  function Find(t: string, p: Pattern): (r: Option<nat>)
    ensures r.Some? ==> r.value + |p.text| <= |t|
  {
    FindFrom(t, p, 0)
  }

  /** The pattern is nowhere in the text. */
  predicate Free(t: string, p: Pattern) {
    Find(t, p).None?
  }

  lemma {:induction false} FindFromMeaning(t: string, p: Pattern, from: nat)
    requires from <= |t|
    ensures var r := FindFrom(t, p, from);
            && (r.Some? ==> from <= r.value && Hit(t, p, r.value))
            && forall y :: from <= y && (r.Some? ==> y < r.value) ==> !Hit(t, p, y)
    decreases |t| - from
  {
    if !Hit(t, p, from) && from < |t| {
      FindFromMeaning(t, p, from + 1);
    }
  }

  /** The result of a search is a hit and no hit stands before it; without a result there is none. */
  lemma FindMeaning(t: string, p: Pattern)
    ensures var r := Find(t, p);
            && (r.Some? ==> Hit(t, p, r.value))
            && forall y: nat :: (r.Some? ==> y < r.value) ==> !Hit(t, p, y)
  {
    FindFromMeaning(t, p, 0);
  }

  lemma FindIsTheFirstHit(t: string, p: Pattern, x: nat)
    requires Hit(t, p, x) && forall y: nat :: y < x ==> !Hit(t, p, y)
    ensures Find(t, p) == Some(x)
  {
    FindMeaning(t, p);
  }

  lemma NoHitIsFree(t: string, p: Pattern)
    requires forall y: nat :: !Hit(t, p, y)
    ensures Free(t, p)
  {
    FindMeaning(t, p);
  }

  /** A text that the next line can follow: empty, or ended by a line terminator. */
  predicate Aligned(s: string) {
    s == "" || IsTerminator(s[|s| - 1])
  }

  /** A terminator can only be the pattern's last character. */
  predicate OneLine(p: Pattern) {
    p.text != "" && forall i :: 0 <= i < |p.text| - 1 ==> !IsTerminator(p.text[i])
  }

  lemma AlignedConcat(s: string, u: string)
    requires Aligned(s) && Aligned(u)
    ensures Aligned(s + u)
  {
  }

  /** A hit that begins inside whole lines lies inside them. */
  lemma HitInPrefix(s: string, u: string, p: Pattern, x: nat)
    requires Aligned(s) && OneLine(p) && x < |s|
    ensures Hit(s + u, p, x) <==> Hit(s, p, x)
  {
    var t, n := s + u, |p.text|;
    if x + n <= |s| {
      assert t[x..x + n] == s[x..x + n];
    } else if x + n <= |t| {
      // the terminator that ends `s` would stand inside the pattern
      var k := |s| - 1 - x;
      assert t[x..x + n][k] == s[|s| - 1];
      assert IsTerminator(t[x..x + n][k]) && !IsTerminator(p.text[k]);
    }
  }

  lemma HitInSuffix(s: string, u: string, p: Pattern, x: nat)
    requires Aligned(s)
    ensures Hit(s + u, p, |s| + x) <==> Hit(u, p, x)
  {
    var t, n := s + u, |p.text|;
    if x + n <= |u| {
      assert t[|s| + x..|s| + x + n] == u[x..x + n];
    }
  }

  lemma HitInConcat(s: string, u: string, p: Pattern, x: nat)
    requires Aligned(s) && OneLine(p)
    ensures Hit(s + u, p, x) <==> if x < |s| then Hit(s, p, x) else Hit(u, p, x - |s|)
  {
    if x < |s| {
      HitInPrefix(s, u, p, x);
    } else {
      HitInSuffix(s, u, p, x - |s|);
    }
  }

  function Shift(r: Option<nat>, n: nat): Option<nat> {
    match r
    case None => None
    case Some(x) => Some(n + x)
  }

  /** The first hit in whole lines followed by more text. */
  lemma FindConcat(s: string, u: string, p: Pattern)
    requires Aligned(s) && OneLine(p)
    ensures Find(s + u, p) == if Free(s, p) then Shift(Find(u, p), |s|) else Find(s, p)
  {
    var r := if Free(s, p) then Shift(Find(u, p), |s|) else Find(s, p);
    FindMeaning(s, p);
    FindMeaning(u, p);
    FindMeaning(s + u, p);
    forall x: nat | r.Some? ==> x < r.value ensures !Hit(s + u, p, x) {
      HitInConcat(s, u, p, x);
    }
    if r.Some? {
      HitInConcat(s, u, p, r.value);
      FindIsTheFirstHit(s + u, p, r.value);
    }
  }

  lemma FreeConcat(s: string, u: string, p: Pattern)
    requires Aligned(s) && OneLine(p)
    ensures Free(s + u, p) <==> Free(s, p) && Free(u, p)
  {
    FindConcat(s, u, p);
  }
}
