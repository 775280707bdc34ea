/**
 * How Price Compare picks one product from a store's search results, and which stores' picks it doubts
 * afterwards (apps/price-compare/app/scrapers.js).
 */
module Ranking {
  import opened Common

  /**
   * One search result; `size` is 0 and `kind` empty where the page gave none. Prices and sizes are exact; whether
   * the name is irrelevant to the query, and its significant words, are given.
   */
  datatype Candidate = Candidate(
    url: string, name: string, price: Option<real>, isPack: bool, irrelevant: bool, sizeMismatch: bool,
    size: real, kind: string, words: seq<string>)

  datatype Entry = Entry(
    url: string, price: real, isPack: bool, size: real, kind: string,
    extraWords: nat, headMismatch: bool, formMismatch: bool)

  /** The tuned word lists. */
  datatype Lists = Lists(generic: set<string>, packaging: set<string>, forms: set<string>, preparations: set<string>)

  function Filter<T>(xs: seq<T>, p: T -> bool): seq<T> {
    if xs == [] then [] else (if p(xs[0]) then [xs[0]] else []) + Filter(xs[1..], p)
  }

  lemma {:induction false} FilterKeeps<T>(xs: seq<T>, p: T -> bool, x: T)
    ensures x in Filter(xs, p) <==> x in xs && p(x)
  {
    if xs != [] {
      FilterKeeps(xs[1..], p, x);
      assert x in xs <==> x == xs[0] || x in xs[1..];
    }
  }

  lemma {:induction false} FilterTwice<T>(xs: seq<T>, p: T -> bool, q: T -> bool, r: T -> bool)
    requires forall x <- xs :: r(x) <==> p(x) && q(x)
    ensures Filter(Filter(xs, p), q) == Filter(xs, r)
  {
    if xs != [] {
      assert forall x <- xs[1..] :: x in xs;
      FilterTwice(xs[1..], p, q, r);
      assert xs[0] in xs;
      var rest := Filter(xs[1..], p);
      if p(xs[0]) {
        assert ([xs[0]] + rest)[1..] == rest;
      } else {
        assert [] + rest == rest;
      }
    }
  }

  lemma {:induction false} FilterSame<T>(xs: seq<T>, p: T -> bool, q: T -> bool)
    requires forall x <- xs :: p(x) <==> q(x)
    ensures Filter(xs, p) == Filter(xs, q)
  {
    if xs != [] {
      assert xs[0] in xs;
      assert forall x <- xs[1..] :: x in xs;
      FilterSame(xs[1..], p, q);
    }
  }

  lemma {:induction false} FilterSkips<T>(xs: seq<T>, p: T -> bool, k: nat, y: T)
    requires k < |xs| && !p(xs[k]) && !p(y)
    ensures Filter(xs[k := y], p) == Filter(xs, p)
  {
    if k == 0 {
      assert xs[k := y][1..] == xs[1..];
    } else {
      FilterSkips(xs[1..], p, k - 1, y);
      assert xs[k := y][1..] == xs[1..][k - 1 := y];
    }
  }

  // ----- Measuring a name -----

  predicate Digits(w: string) {
    w != "" && forall c <- w :: '0' <= c <= '9'
  }

  /** A word that does not speak against a candidate: asked for, generic, packaging or a bare number. */
  predicate Accounted(w: string, query: set<string>, lists: Lists) {
    w in query || w in lists.generic || w in lists.packaging || Digits(w)
  }

  predicate FormWord(w: string, query: set<string>, lists: Lists) {
    w !in query && (w in lists.forms || w in lists.preparations)
  }

  function WordSet(ws: seq<string>): set<string> {
    set w | w in ws
  }

  function Measure(c: Candidate, price: real, query: seq<string>, lists: Lists): Entry {
    var q := WordSet(query);
    Entry(c.url, price, c.isPack, c.size, c.kind,
          |set w | w in c.words && !Accounted(w, q, lists)|,
          c.words != [] && c.words[0] != "" && c.words[0] !in query,
          exists w <- c.words :: FormWord(w, q, lists))
  }

  method CountExtraWords(query: set<string>, words: set<string>, lists: Lists) returns (count: nat)
    ensures count == |set w | w in words && !Accounted(w, query, lists)|
  {
    count := 0;
    var todo := words;
    ghost var counted: set<string> := {};
    while todo != {}
      invariant todo <= words
      invariant counted == set w | w in words && w !in todo && !Accounted(w, query, lists)
      invariant count == |counted|
    {
      var w :| w in todo;
      todo := todo - {w};
      if w !in query && w !in lists.generic && w !in lists.packaging && !Digits(w) {
        count := count + 1;
        counted := counted + {w};
      }
    }
    assert counted == set w | w in words && !Accounted(w, query, lists);
  }

  method HasUnrequestedFormWord(query: set<string>, words: seq<string>, lists: Lists) returns (found: bool)
    ensures found <==> exists w <- words :: FormWord(w, query, lists)
  {
    for i := 0 to |words|
      invariant forall k :: 0 <= k < i ==> !FormWord(words[k], query, lists)
    {
      if FormWord(words[i], query, lists) {
        return true;
      }
    }
    return false;
  }

  /** Not asked for, in neither list of harmless words, and no bare number. */
  predicate Extra(w: string, query: seq<string>, lists: Lists) {
    w !in query && w !in lists.generic && w !in lists.packaging && (w == "" || exists c <- w :: c !in "0123456789")
  }

  lemma DigitIff(c: char)
    ensures '0' <= c <= '9' <==> c in "0123456789"
  {
    if '0' <= c <= '9' {
      assert "0123456789"[c as int - '0' as int] == c;
    }
  }

  lemma ExtraIff(w: string, query: seq<string>, lists: Lists)
    ensures Accounted(w, WordSet(query), lists) <==> !Extra(w, query, lists)
  {
    forall c ensures '0' <= c <= '9' <==> c in "0123456789" {
      DigitIff(c);
    }
  }

  /** What is measured of a candidate: the extra words of its name, each once, its first word, and its forms. */
  lemma MeasureMeaning(c: Candidate, price: real, query: seq<string>, lists: Lists)
    ensures var e := Measure(c, price, query, lists);
            && e.url == c.url && e.price == price && e.isPack == c.isPack && e.size == c.size && e.kind == c.kind
            && e.extraWords == |set w | w in c.words && Extra(w, query, lists)|
            && (e.headMismatch <==> c.words != [] && c.words[0] != "" && c.words[0] !in query)
            && (e.formMismatch <==> exists w <- c.words :: w !in query && (w in lists.forms || w in lists.preparations))
  {
    forall w ensures Accounted(w, WordSet(query), lists) <==> !Extra(w, query, lists) {
      ExtraIff(w, query, lists);
    }
    hide Accounted;
    hide Extra;
    assert (set w | w in c.words && !Accounted(w, WordSet(query), lists)) == (set w | w in c.words && Extra(w, query, lists));
  }

  // ----- Which candidates may be picked -----

  predicate Usable(c: Candidate) {
    c.price.Some? && c.name != "" && !c.irrelevant && !c.sizeMismatch
  }

  function UsableEntries(cs: seq<Candidate>, query: seq<string>, lists: Lists): seq<Entry> {
    if cs == [] then []
    else
      var last := cs[|cs| - 1];
      UsableEntries(cs[..|cs| - 1], query, lists)
      + if Usable(last) then [Measure(last, last.price.value, query, lists)] else []
  }

  lemma {:induction false} EntriesAreUsable(cs: seq<Candidate>, query: seq<string>, lists: Lists, e: Entry)
    ensures e in UsableEntries(cs, query, lists) <==>
              exists c <- cs :: Usable(c) && e == Measure(c, c.price.value, query, lists)
  {
    hide Measure;
    if cs != [] {
      EntriesAreUsable(cs[..|cs| - 1], query, lists, e);
      assert cs == cs[..|cs| - 1] + [cs[|cs| - 1]];
    }
  }

  /** Single units when there are any, packs otherwise. */
  function Pool(usable: seq<Entry>): seq<Entry> {
    var single := Filter(usable, (e: Entry) => !e.isPack);
    if single != [] then single else Filter(usable, (e: Entry) => e.isPack)
  }

  function Least(ns: seq<nat>): nat
    requires ns != []
  {
    if |ns| == 1 then ns[0] else var m := Least(ns[1..]); if ns[0] < m then ns[0] else m
  }

  lemma {:induction false} LeastIsLeast(ns: seq<nat>)
    requires ns != []
    ensures Least(ns) in ns && forall n <- ns :: Least(ns) <= n
  {
    if |ns| > 1 {
      LeastIsLeast(ns[1..]);
      assert ns == [ns[0]] + ns[1..];
    }
  }

  function Extras(es: seq<Entry>): (r: seq<nat>)
    ensures |r| == |es|
  {
    seq(|es|, i requires 0 <= i < |es| => es[i].extraWords)
  }

  /** `Filter`, unless nothing would be left. */
  function Prefer(es: seq<Entry>, p: Entry -> bool): seq<Entry> {
    if Filter(es, p) != [] then Filter(es, p) else es
  }

  function Plain(): Entry -> bool {
    (e: Entry) => !e.formMismatch
  }

  function HeadMatches(): Entry -> bool {
    (e: Entry) => !e.headMismatch
  }

  function WithExtras(n: nat): Entry -> bool {
    (e: Entry) => e.extraWords == n
  }

  /** The three narrowing stages, each on what the one before left. */
  function PickClosest(es: seq<Entry>): seq<Entry>
    requires es != []
  {
    var tier := Prefer(es, Plain());
    Prefer(Filter(tier, WithExtras(Least(Extras(tier)))), HeadMatches())
  }

  /** Closeness of a name: no processed form first, then fewest extra words, then the head word. */
  predicate NoFurther(a: Entry, b: Entry) {
    if a.formMismatch != b.formMismatch then b.formMismatch
    else if a.extraWords != b.extraWords then a.extraWords < b.extraWords
    else a.headMismatch ==> b.headMismatch
  }

  predicate Closest(es: seq<Entry>, e: Entry) {
    forall f <- es :: NoFurther(e, f)
  }

  function IsClosest(es: seq<Entry>): Entry -> bool {
    (e: Entry) => Closest(es, e)
  }

  /** The entries whose names no other entry's name beats, in order. */
  function ClosestOf(es: seq<Entry>): seq<Entry> {
    Filter(es, IsClosest(es))
  }

  function Preferring(es: seq<Entry>, p: Entry -> bool): Entry -> bool {
    (e: Entry) => Filter(es, p) != [] ==> p(e)
  }

  lemma PreferIsFilter(es: seq<Entry>, p: Entry -> bool)
    ensures Prefer(es, p) == Filter(es, Preferring(es, p))
    ensures es != [] ==> Prefer(es, p) != []
    ensures forall x :: x in Prefer(es, p) <==> x in es && ((exists y <- es :: p(y)) ==> p(x))
  {
    if Filter(es, p) != [] {
      FilterSame(es, p, Preferring(es, p));
      var y := Filter(es, p)[0];
      FilterKeeps(es, p, y);
      assert y in es && p(y);
    } else {
      FilterAll(es, Preferring(es, p));
      forall y | y in es ensures !p(y) {
        FilterKeeps(es, p, y);
      }
    }
    forall x ensures x in Filter(es, p) <==> x in es && p(x) {
      FilterKeeps(es, p, x);
    }
  }

  lemma {:induction false} FilterAll<T>(xs: seq<T>, p: T -> bool)
    requires forall x <- xs :: p(x)
    ensures Filter(xs, p) == xs
  {
    if xs != [] {
      assert xs[0] in xs;
      assert forall x <- xs[1..] :: x in xs;
      FilterAll(xs[1..], p);
    }
  }

  /** The middle stage keeps exactly the entries with the fewest extra words. */
  lemma FewestExtras(tier: seq<Entry>)
    requires tier != []
    ensures var kept := Filter(tier, WithExtras(Least(Extras(tier))));
            kept != [] && forall x :: x in kept <==> x in tier && forall y <- tier :: x.extraWords <= y.extraWords
  {
    var least := Least(Extras(tier));
    var kept := Filter(tier, WithExtras(least));
    LeastIsLeast(Extras(tier));
    forall y | y in tier ensures least <= y.extraWords {
      var i :| 0 <= i < |tier| && tier[i] == y;
      assert Extras(tier)[i] in Extras(tier);
    }
    var i :| 0 <= i < |tier| && Extras(tier)[i] == least;
    FilterKeeps(tier, WithExtras(least), tier[i]);
    forall x ensures x in kept <==> x in tier && x.extraWords == least {
      FilterKeeps(tier, WithExtras(least), x);
    }
    assert tier[i] in tier;
  }

  /** What is left after all three stages, in terms of the whole pool. */
  lemma StagesAreMinima(es: seq<Entry>, e: Entry)
    requires es != []
    ensures e in PickClosest(es) <==> e in es && Closest(es, e)
    ensures PickClosest(es) != []
  {
    hide Filter;
    var tier := Prefer(es, Plain());
    PreferIsFilter(es, Plain());
    var mid := Filter(tier, WithExtras(Least(Extras(tier))));
    FewestExtras(tier);
    PreferIsFilter(mid, HeadMatches());
    hide Prefer;
    hide Extras;
    hide Least;
    if e in es && Closest(es, e) {
      assert e in tier;
      assert e in mid;
    }
  }

  /** The three-stage narrowing keeps, in order, exactly the lexicographic minima of the pool. */
  lemma NarrowingIsLexicographicMinimum(es: seq<Entry>)
    requires es != []
    ensures PickClosest(es) == ClosestOf(es)
    ensures PickClosest(es) != []
  {
    var tier := Prefer(es, Plain());
    var n := Least(Extras(tier));
    var mid := Filter(tier, WithExtras(n));
    var p, q := Preferring(es, Plain()), Preferring(mid, HeadMatches());
    PreferIsFilter(es, Plain());
    PreferIsFilter(mid, HeadMatches());
    var pw := (e: Entry) => p(e) && WithExtras(n)(e);
    var all := (e: Entry) => pw(e) && q(e);
    FilterTwice(es, p, WithExtras(n), pw);
    FilterTwice(es, pw, q, all);
    var closest := IsClosest(es);
    forall e | e in es ensures all(e) <==> closest(e) {
      StagesAreMinima(es, e);
      FilterKeeps(es, all, e);
    }
    FilterSame(es, all, closest);
    StagesAreMinima(es, es[0]);
  }

  // ----- The price to compare by -----

  function Kinds(es: seq<Entry>): set<string> {
    set i | 0 <= i < |es| :: es[i].kind
  }

  predicate AllSized(es: seq<Entry>) {
    (forall i :: 0 <= i < |es| ==> es[i].size > 0.0 && es[i].kind != "") && |Kinds(es)| == 1
  }

  /** Price per unit of size when every entry has a comparable size, the plain price otherwise. */
  function Value(e: Entry, sized: bool): real {
    if sized && e.size > 0.0 then e.price / e.size else e.price
  }

  function Values(es: seq<Entry>, sized: bool): (r: seq<real>)
    ensures |r| == |es|
    ensures forall i :: 0 <= i < |es| ==> r[i] == Value(es[i], sized)
  {
    seq(|es|, i requires 0 <= i < |es| => Value(es[i], sized))
  }

  function Insert(x: real, xs: seq<real>): seq<real> {
    if xs == [] || x <= xs[0] then [x] + xs else [xs[0]] + Insert(x, xs[1..])
  }

  function Sort(xs: seq<real>): seq<real> {
    if xs == [] then [] else Insert(xs[0], Sort(xs[1..]))
  }

  predicate Sorted(xs: seq<real>) {
    forall i, j :: 0 <= i <= j < |xs| ==> xs[i] <= xs[j]
  }

  /** How many values lie below the bound. */
  function Below(xs: seq<real>, x: real): (n: nat)
    ensures n <= |xs|
  {
    if xs == [] then 0 else (if xs[0] < x then 1 else 0) + Below(xs[1..], x)
  }

  function AtMost(xs: seq<real>, x: real): (n: nat)
    ensures n <= |xs|
  {
    if xs == [] then 0 else (if xs[0] <= x then 1 else 0) + AtMost(xs[1..], x)
  }

  function Median(xs: seq<real>): real
    requires xs != []
  {
    SortIsSorted(xs);
    Sort(xs)[|xs| / 2]
  }

  lemma {:induction false} InsertCounts(y: real, xs: seq<real>, x: real)
    ensures |Insert(y, xs)| == |xs| + 1
    ensures Below(Insert(y, xs), x) == Below(xs, x) + if y < x then 1 else 0
    ensures AtMost(Insert(y, xs), x) == AtMost(xs, x) + if y <= x then 1 else 0
  {
    if xs == [] || y <= xs[0] {
      assert ([y] + xs)[1..] == xs;
    } else {
      InsertCounts(y, xs[1..], x);
      assert ([xs[0]] + Insert(y, xs[1..]))[1..] == Insert(y, xs[1..]);
    }
  }

  lemma {:induction false} InsertSorted(y: real, xs: seq<real>)
    requires Sorted(xs)
    ensures Sorted(Insert(y, xs))
    ensures forall z <- Insert(y, xs) :: z == y || z in xs
  {
    if !(xs == [] || y <= xs[0]) {
      InsertSorted(y, xs[1..]);
      var rest := Insert(y, xs[1..]);
      forall j | 0 <= j < |rest| ensures xs[0] <= rest[j] {
        assert rest[j] in rest;
      }
    }
  }

  lemma {:induction false} SortIsSorted(xs: seq<real>)
    ensures |Sort(xs)| == |xs| && Sorted(Sort(xs))
  {
    if xs != [] {
      SortIsSorted(xs[1..]);
      InsertSorted(xs[0], Sort(xs[1..]));
      InsertCounts(xs[0], Sort(xs[1..]), 0.0);
    }
  }

  lemma {:induction false} SortCounts(xs: seq<real>, x: real)
    ensures Below(Sort(xs), x) == Below(xs, x) && AtMost(Sort(xs), x) == AtMost(xs, x)
  {
    if xs != [] {
      SortCounts(xs[1..], x);
      InsertCounts(xs[0], Sort(xs[1..]), x);
    }
  }

  lemma {:induction false} BelowWhenLater(xs: seq<real>, x: real, h: nat)
    requires h <= |xs| && forall i :: h <= i < |xs| ==> x <= xs[i]
    ensures Below(xs, x) <= h
  {
    if xs != [] {
      BelowWhenLater(xs[1..], x, if h == 0 then 0 else h - 1);
    }
  }

  lemma {:induction false} AtMostWhenEarlier(xs: seq<real>, x: real, h: nat)
    requires h <= |xs| && forall i :: 0 <= i < h ==> xs[i] <= x
    ensures AtMost(xs, x) >= h
  {
    if h > 0 {
      AtMostWhenEarlier(xs[1..], x, h - 1);
    }
  }

  /** The value that has at most half the values below it, and more than half at or below it. */
  predicate IsMedian(xs: seq<real>, m: real) {
    Below(xs, m) <= |xs| / 2 < AtMost(xs, m)
  }

  lemma MedianIsMedian(xs: seq<real>)
    requires xs != []
    ensures IsMedian(xs, Median(xs))
  {
    SortIsSorted(xs);
    var m := Median(xs);
    BelowWhenLater(Sort(xs), m, |xs| / 2);
    AtMostWhenEarlier(Sort(xs), m, |xs| / 2 + 1);
    SortCounts(xs, m);
  }

  lemma {:induction false} BelowIsMonotone(xs: seq<real>, x: real, y: real)
    requires x <= y
    ensures Below(xs, x) <= Below(xs, y)
    ensures x < y ==> AtMost(xs, x) <= Below(xs, y)
  {
    if xs != [] {
      BelowIsMonotone(xs[1..], x, y);
    }
  }

  lemma MedianIsUnique(xs: seq<real>, a: real, b: real)
    requires IsMedian(xs, a) && IsMedian(xs, b)
    ensures a == b
  {
    if a < b {
      BelowIsMonotone(xs, a, b);
    } else if b < a {
      BelowIsMonotone(xs, b, a);
    }
  }

  lemma {:induction false} CountsUpdate(xs: seq<real>, k: nat, y: real, x: real)
    requires k < |xs|
    ensures Below(xs[k := y], x) == Below(xs, x) - (if xs[k] < x then 1 else 0) + if y < x then 1 else 0
    ensures AtMost(xs[k := y], x) == AtMost(xs, x) - (if xs[k] <= x then 1 else 0) + if y <= x then 1 else 0
  {
    if k == 0 {
      assert xs[k := y][1..] == xs[1..];
    } else {
      CountsUpdate(xs[1..], k - 1, y, x);
      assert xs[k := y][1..] == xs[1..][k - 1 := y];
    }
  }

  /** Moving a value about below the median does not move the median. */
  lemma MedianIgnoresLowValues(xs: seq<real>, k: nat, y: real)
    requires k < |xs| && xs[k] < Median(xs) && y < Median(xs)
    ensures Median(xs[k := y]) == Median(xs)
  {
    var m := Median(xs);
    MedianIsMedian(xs);
    MedianIsMedian(xs[k := y]);
    CountsUpdate(xs, k, y, m);
    MedianIsUnique(xs[k := y], m, Median(xs[k := y]));
  }

  // ----- The cheapest plausible entry -----

  function AtLeast(cut: real, sized: bool): Entry -> bool {
    (e: Entry) => Value(e, sized) >= cut
  }

  function Cut(es: seq<Entry>): real
    requires es != []
  {
    Median(Values(es, AllSized(es))) * 0.5
  }

  /** All entries when there are fewer than three, those priced at half the median or more otherwise. */
  function Plausible(es: seq<Entry>): seq<Entry> {
    if |es| < 3 then es else Filter(es, AtLeast(Cut(es), AllSized(es)))
  }

  /** The first of the cheapest entries. */
  function Cheapest(es: seq<Entry>, sized: bool): Entry
    requires es != []
  {
    var last := es[|es| - 1];
    if |es| == 1 then last
    else var best := Cheapest(es[..|es| - 1], sized); if Value(last, sized) < Value(best, sized) then last else best
  }

  /** None when there is nothing left to choose from; choosing then fails. */
  function CheapestPlausible(es: seq<Entry>): Option<Entry> {
    if Plausible(es) == [] then None else Some(Cheapest(Plausible(es), AllSized(es)))
  }

  predicate FirstLeast(es: seq<Entry>, sized: bool, i: nat) {
    && i < |es|
    && (forall j :: 0 <= j < |es| ==> Value(es[i], sized) <= Value(es[j], sized))
    && (forall j :: 0 <= j < i ==> Value(es[i], sized) < Value(es[j], sized))
  }

  lemma {:induction false} CheapestIsFirstLeast(es: seq<Entry>, sized: bool)
    requires es != []
    ensures exists i: nat :: i < |es| && FirstLeast(es, sized, i) && es[i] == Cheapest(es, sized)
  {
    var n := |es| - 1;
    if n == 0 {
      assert FirstLeast(es, sized, 0);
    } else {
      CheapestIsFirstLeast(es[..n], sized);
      var i: nat :| i < n && FirstLeast(es[..n], sized, i) && es[..n][i] == Cheapest(es[..n], sized);
      hide Value;
      FirstLeastGrows(es, sized, i);
    }
  }

  lemma FirstLeastGrows(es: seq<Entry>, sized: bool, i: nat)
    requires es != [] && i < |es| - 1 && FirstLeast(es[..|es| - 1], sized, i)
    ensures FirstLeast(es, sized, if Value(es[|es| - 1], sized) < Value(es[i], sized) then |es| - 1 else i)
  {
    hide Value;
    var most := es[..|es| - 1];
    assert forall j :: 0 <= j < |most| ==> most[j] == es[j];
  }

  lemma {:induction false} SurvivorsCount(es: seq<Entry>, sized: bool, cut: real)
    ensures |Filter(es, AtLeast(cut, sized))| + Below(Values(es, sized), cut) == |es|
  {
    if es != [] {
      SurvivorsCount(es[1..], sized, cut);
      assert Values(es, sized)[1..] == Values(es[1..], sized);
    }
  }

  lemma {:induction false} SomeAtMost(xs: seq<real>, m: real)
    requires Below(xs, m) < AtMost(xs, m)
    ensures m in xs
  {
    if xs[0] != m {
      SomeAtMost(xs[1..], m);
    }
  }

  /** The median of at least three prices that are not negative survives the cut, with at least half of them. */
  lemma HalfSurvive(es: seq<Entry>)
    requires |es| >= 3 && Cut(es) >= 0.0
    ensures |Plausible(es)| >= |es| - |es| / 2
    ensures exists e <- Plausible(es) :: Value(e, AllSized(es)) == 2.0 * Cut(es)
  {
    hide Median;
    hide IsMedian;
    hide AllSized;
    var sized, cut := AllSized(es), Cut(es);
    var vs := Values(es, sized);
    var m := Median(vs);
    MedianIsMedian(vs);
    MedianBetween(vs, m);
    SurvivorsCount(es, sized, cut);
    BelowIsMonotone(vs, cut, m);
    var i :| 0 <= i < |vs| && vs[i] == m;
    FilterKeeps(es, AtLeast(cut, sized), es[i]);
    assert es[i] in es;
  }

  lemma MedianBetween(xs: seq<real>, m: real)
    requires IsMedian(xs, m)
    ensures m in xs && Below(xs, m) <= |xs| / 2
  {
    SomeAtMost(xs, m);
  }

  /** The pick is the first of the cheapest survivors, and lies between half the median and the median. */
  lemma PickIsPlausible(es: seq<Entry>)
    requires |es| >= 3 && Cut(es) >= 0.0
    ensures var sized := AllSized(es);
            exists i: nat :: i < |Plausible(es)| && CheapestPlausible(es) == Some(Plausible(es)[i])
              && FirstLeast(Plausible(es), sized, i)
              && Cut(es) <= Value(Plausible(es)[i], sized) <= 2.0 * Cut(es)
  {
    hide Cut;
    hide AllSized;
    hide FirstLeast;
    var sized := AllSized(es);
    var kept := Plausible(es);
    HalfSurvive(es);
    CheapestIsFirstLeast(kept, sized);
    var i: nat :| i < |kept| && FirstLeast(kept, sized, i) && kept[i] == Cheapest(kept, sized);
    var e :| e in kept && Value(e, sized) == 2.0 * Cut(es);
    LeastBounds(kept, sized, i, e);
    FilterKeeps(es, AtLeast(Cut(es), sized), kept[i]);
  }

  lemma LeastBounds(es: seq<Entry>, sized: bool, i: nat, e: Entry)
    requires FirstLeast(es, sized, i) && e in es
    ensures i < |es| && Value(es[i], sized) <= Value(e, sized)
  {
  }

  /** No pick exactly when every one of three or more values is below half the median. */
  lemma NoPickIff(es: seq<Entry>)
    requires es != []
    ensures CheapestPlausible(es).None? <==>
              |es| >= 3 && forall e <- es :: Value(e, AllSized(es)) < Cut(es)
    ensures CheapestPlausible(es).None? ==> Cut(es) < 0.0
  {
    hide Cut;
    hide AllSized;
    if |es| >= 3 {
      var p := AtLeast(Cut(es), AllSized(es));
      forall e ensures e in Plausible(es) <==> e in es && p(e) {
        FilterKeeps(es, p, e);
      }
      if Plausible(es) != [] {
        assert Plausible(es)[0] in Plausible(es);
      }
      if Cut(es) >= 0.0 {
        HalfSurvive(es);
      }
    }
  }

  /** Three or more unsized entries at one negative price, and choosing fails. */
  lemma EqualNegativePricesFail(es: seq<Entry>, price: real)
    requires |es| >= 3 && price < 0.0 && forall e <- es :: e.price == price && e.size == 0.0
    ensures CheapestPlausible(es).None?
  {
    hide Median;
    hide IsMedian;
    hide CheapestPlausible;
    assert es[0] in es && !AllSized(es);
    var vs := Values(es, AllSized(es));
    MedianIsMedian(vs);
    MedianBetween(vs, Median(vs));
    var i :| 0 <= i < |vs| && vs[i] == Median(vs);
    assert es[i] in es && Cut(es) == price * 0.5;
    NoPickIff(es);
  }

  /**
   * A listing far below its pool cannot steer the choice: once dropped, lowering its price further, or to
   * anything else below half the median, changes neither the median nor the pick.
   */
  lemma DroppedListingIsIgnored(es: seq<Entry>, k: nat, price: real)
    requires |es| >= 3 && k < |es| && Cut(es) >= 0.0
    requires Value(es[k], AllSized(es)) < Cut(es) && Value(es[k].(price := price), AllSized(es)) < Cut(es)
    ensures Cut(es[k := es[k].(price := price)]) == Cut(es)
    ensures CheapestPlausible(es[k := es[k].(price := price)]) == CheapestPlausible(es)
  {
    hide Median;
    var e := es[k].(price := price);
    var changed := es[k := e];
    SizedIgnoresPrice(es, k, price);
    hide AllSized;
    var sized := AllSized(es);
    var vs := Values(es, sized);
    assert Values(changed, sized) == vs[k := Value(e, sized)];
    MedianIgnoresLowValues(vs, k, Value(e, sized));
    FilterSkips(es, AtLeast(Cut(es), sized), k, e);
  }

  lemma SizedIgnoresPrice(es: seq<Entry>, k: nat, price: real)
    requires k < |es|
    ensures AllSized(es[k := es[k].(price := price)]) == AllSized(es)
  {
    var changed := es[k := es[k].(price := price)];
    assert forall i :: 0 <= i < |es| ==> changed[i].kind == es[i].kind && changed[i].size == es[i].size;
    assert Kinds(changed) == Kinds(es);
  }

  // ----- Selecting a candidate -----

  datatype Selection = Nothing | Picked(entry: Entry) | Fails

  function Best(query: seq<string>, cs: seq<Candidate>, lists: Lists): Selection {
    var pool := Pool(UsableEntries(cs, query, lists));
    if pool == [] then Nothing
    else
      StagesAreMinima(pool, pool[0]);
      match CheapestPlausible(PickClosest(pool))
      case Some(e) => Picked(e)
      case None => Fails
  }

  // ----- The pick by prices and sizes -----

  /** All entries have a size, of one kind. */
  predicate SizedAlike(es: seq<Entry>) {
    es != [] && es[0].kind != "" && forall e <- es :: e.size > 0.0 && e.kind == es[0].kind
  }

  /** The one costs no more than the other: by the unit where all entries can be compared so, in all otherwise. */
  predicate NotDearer(es: seq<Entry>, a: Entry, b: Entry) {
    if SizedAlike(es) then a.price * b.size <= b.price * a.size else a.price <= b.price
  }

  /** It costs at least half of what the other does. */
  predicate HalfOrMore(es: seq<Entry>, e: Entry, m: Entry) {
    if SizedAlike(es) then m.price * e.size <= 2.0 * (e.price * m.size) else m.price <= 2.0 * e.price
  }

  function NotDearerThan(es: seq<Entry>, m: Entry): Entry -> bool {
    (e: Entry) => NotDearer(es, e, m)
  }

  function CheaperThan(es: seq<Entry>, m: Entry): Entry -> bool {
    (e: Entry) => !NotDearer(es, m, e)
  }

  /** At most half of the entries are cheaper, and more than half are no dearer. */
  predicate IsMiddle(es: seq<Entry>, m: Entry) {
    m in es && |Filter(es, CheaperThan(es, m))| <= |es| / 2 < |Filter(es, NotDearerThan(es, m))|
  }

  /** Of three or more entries, those at half of the middle one or more survive. */
  predicate Survives(es: seq<Entry>, e: Entry) {
    |es| < 3 || exists m <- es :: IsMiddle(es, m) && HalfOrMore(es, e, m)
  }

  function Surviving(es: seq<Entry>): Entry -> bool {
    (e: Entry) => Survives(es, e)
  }

  /** No entry is cheaper, and every earlier one is dearer. */
  predicate FirstCheapest(es: seq<Entry>, kept: seq<Entry>, e: Entry) {
    exists i :: 0 <= i < |kept| && kept[i] == e
      && (forall k <- kept :: NotDearer(es, e, k))
      && forall j :: 0 <= j < i ==> !NotDearer(es, kept[j], e)
  }

  lemma SizedAlikeIff(es: seq<Entry>)
    requires es != []
    ensures AllSized(es) <==> SizedAlike(es)
  {
    var kind := es[0].kind;
    assert kind in Kinds(es);
    if SizedAlike(es) {
      forall i | 0 <= i < |es| ensures es[i].kind == kind && es[i].size > 0.0 {
        assert es[i] in es;
      }
      assert Kinds(es) == {kind};
    } else if AllSized(es) {
      assert |Kinds(es) - {kind}| == 0;
      forall e | e in es ensures e.kind == kind && e.size > 0.0 {
        var i :| 0 <= i < |es| && es[i] == e;
        assert e.kind in Kinds(es);
        assert e.kind !in Kinds(es) - {kind};
      }
    }
  }

  /** Two quotients compare as the cross products do. */
  lemma CrossMultiply(a: real, x: real, b: real, y: real)
    requires x > 0.0 && y > 0.0
    ensures a / x <= b / y <==> a * y <= b * x
  {
    var p, q := a / x, b / y;
    assert a == p * x && b == q * y;
    assert a * y == p * (x * y) && b * x == q * (x * y);
    if p <= q {
      ScaleKeepsOrder(p, q, x * y);
    } else {
      ScaleKeepsStrictOrder(q, p, x * y);
    }
  }

  lemma ScaleKeepsOrder(p: real, q: real, z: real)
    requires p <= q && z > 0.0
    ensures p * z <= q * z
  {
  }

  lemma ScaleKeepsStrictOrder(p: real, q: real, z: real)
    requires p < q && z > 0.0
    ensures p * z < q * z
  {
  }

  lemma ValueOrder(es: seq<Entry>, a: Entry, b: Entry)
    requires a in es && b in es
    ensures NotDearer(es, a, b) <==> Value(a, AllSized(es)) <= Value(b, AllSized(es))
  {
    hide AllSized;
    SizedAlikeIff(es);
    if SizedAlike(es) {
      CrossMultiply(a.price, a.size, b.price, b.size);
    }
  }

  lemma ValueHalf(es: seq<Entry>, e: Entry, m: Entry)
    requires e in es && m in es
    ensures HalfOrMore(es, e, m) <==> Value(e, AllSized(es)) >= Value(m, AllSized(es)) * 0.5
  {
    hide AllSized;
    SizedAlikeIff(es);
    if SizedAlike(es) {
      CrossMultiply(m.price, m.size, 2.0 * e.price, e.size);
      assert 2.0 * e.price / e.size == 2.0 * (e.price / e.size);
    }
  }

  function ValueBelow(sized: bool, v: real): Entry -> bool {
    (e: Entry) => Value(e, sized) < v
  }

  function ValueAtMost(sized: bool, v: real): Entry -> bool {
    (e: Entry) => Value(e, sized) <= v
  }

  lemma {:induction false} CountsOfValues(es: seq<Entry>, sized: bool, v: real)
    ensures Below(Values(es, sized), v) == |Filter(es, ValueBelow(sized, v))|
    ensures AtMost(Values(es, sized), v) == |Filter(es, ValueAtMost(sized, v))|
  {
    if es != [] {
      CountsOfValues(es[1..], sized, v);
      assert Values(es, sized)[1..] == Values(es[1..], sized);
    }
  }

  lemma MiddleIff(es: seq<Entry>, m: Entry)
    requires m in es
    ensures IsMiddle(es, m) <==> Value(m, AllSized(es)) == Median(Values(es, AllSized(es)))
  {
    hide NotDearer;
    hide Value;
    hide Median;
    hide Below;
    hide AtMost;
    var sized := AllSized(es);
    hide AllSized;
    var v, vs := Value(m, sized), Values(es, sized);
    forall e | e in es
      ensures CheaperThan(es, m)(e) <==> ValueBelow(sized, v)(e)
      ensures NotDearerThan(es, m)(e) <==> ValueAtMost(sized, v)(e)
    {
      ValueOrder(es, m, e);
      ValueOrder(es, e, m);
    }
    FilterSame(es, CheaperThan(es, m), ValueBelow(sized, v));
    FilterSame(es, NotDearerThan(es, m), ValueAtMost(sized, v));
    CountsOfValues(es, sized, v);
    MedianIsMedian(vs);
    if IsMedian(vs, v) {
      MedianIsUnique(vs, v, Median(vs));
    }
  }

  /** The cut keeps exactly the entries at half of the middle one or more. */
  lemma PlausibleByPrice(es: seq<Entry>)
    requires es != []
    ensures Plausible(es) == Filter(es, Surviving(es))
  {
    hide NotDearer;
    hide HalfOrMore;
    hide Value;
    hide Median;
    hide IsMiddle;
    if |es| < 3 {
      FilterAll(es, Surviving(es));
    } else {
      var sized := AllSized(es);
      var vs := Values(es, sized);
      hide AllSized;
      MedianIsMedian(vs);
      MedianBetween(vs, Median(vs));
      hide IsMedian;
      var i :| 0 <= i < |vs| && vs[i] == Median(vs);
      assert es[i] in es;
      MiddleIff(es, es[i]);
      forall e | e in es ensures AtLeast(Cut(es), sized)(e) <==> Surviving(es)(e) {
        ValueHalf(es, e, es[i]);
        if Survives(es, e) {
          var m :| m in es && IsMiddle(es, m) && HalfOrMore(es, e, m);
          MiddleIff(es, m);
          ValueHalf(es, e, m);
        }
      }
      FilterSame(es, AtLeast(Cut(es), sized), Surviving(es));
    }
  }

  lemma FirstLeastIsCheapest(es: seq<Entry>, kept: seq<Entry>, e: Entry)
    requires forall k <- kept :: k in es
    requires IsFirstCheapest(kept, AllSized(es), e)
    ensures FirstCheapest(es, kept, e)
  {
    hide NotDearer;
    hide Value;
    var sized := AllSized(es);
    hide AllSized;
    var i :| 0 <= i < |kept| && kept[i] == e && FirstLeast(kept, sized, i);
    forall k | k in kept ensures NotDearer(es, e, k) {
      ValueOrder(es, e, k);
    }
    forall j | 0 <= j < i ensures !NotDearer(es, kept[j], e) {
      ValueOrder(es, kept[j], e);
    }
  }

  /**
   * The selection by prices and sizes. It fails exactly when no entry with one of the closest names survives the cut;
   * otherwise it picks the first of the cheapest survivors, by the unit if all of these names' entries have sizes of
   * one kind, and in all if not.
   */
  lemma SelectionByPrice(query: seq<string>, cs: seq<Candidate>, lists: Lists)
    requires Pool(UsableEntries(cs, query, lists)) != []
    ensures var closest := ClosestOf(Pool(UsableEntries(cs, query, lists)));
            var kept := Filter(closest, Surviving(closest));
            match Best(query, cs, lists)
            case Nothing => false
            case Fails => kept == []
            case Picked(e) => FirstCheapest(closest, kept, e)
  {
    hide Pool;
    hide UsableEntries;
    hide PickClosest;
    hide Plausible;
    hide FirstCheapest;
    hide IsFirstCheapest;
    hide AllSized;
    var pool := Pool(UsableEntries(cs, query, lists));
    NarrowingIsLexicographicMinimum(pool);
    var closest := ClosestOf(pool);
    hide ClosestOf;
    PlausibleByPrice(closest);
    var kept := Filter(closest, Surviving(closest));
    if Best(query, cs, lists).Picked? {
      PickIsFirstCheapest(query, cs, lists);
      forall k | k in kept ensures k in closest {
        FilterKeeps(closest, Surviving(closest), k);
      }
      FirstLeastIsCheapest(closest, kept, Best(query, cs, lists).entry);
    }
  }

  // ----- Repricing one candidate -----

  /** Filtering a list with one element replaced by another that passes like it replaces the survivor. */
  lemma {:induction false} FilterReplaces<T>(xs: seq<T>, p: T -> bool, k: nat, y: T) returns (i: nat)
    requires k < |xs| && (p(xs[k]) <==> p(y))
    ensures p(y) ==> i < |Filter(xs, p)| && Filter(xs, p)[i] == xs[k] && Filter(xs[k := y], p) == Filter(xs, p)[i := y]
    ensures !p(y) ==> Filter(xs[k := y], p) == Filter(xs, p)
  {
    if k == 0 {
      assert xs[k := y][1..] == xs[1..];
      i := 0;
    } else {
      i := FilterReplaces(xs[1..], p, k - 1, y);
      assert xs[k := y][1..] == xs[1..][k - 1 := y];
      if p(y) && p(xs[0]) {
        assert ([xs[0]] + Filter(xs[1..], p))[i + 1 := y] == [xs[0]] + Filter(xs[1..], p)[i := y];
        i := i + 1;
      }
    }
  }

  function Repriced(es: seq<Entry>, k: nat, price: real): (r: seq<Entry>)
    requires k < |es|
    ensures |r| == |es|
  {
    es[k := es[k].(price := price)]
  }

  function RepricedCandidate(cs: seq<Candidate>, k: nat, price: real): (r: seq<Candidate>)
    requires k < |cs|
    ensures |r| == |cs|
  {
    cs[k := cs[k].(price := Some(price))]
  }

  lemma {:induction false} UsableRepriced(cs: seq<Candidate>, k: nat, price: real, query: seq<string>, lists: Lists) returns (i: nat)
    requires k < |cs| && Usable(cs[k])
    ensures var us := UsableEntries(cs, query, lists);
            && i < |us| && us[i] == Measure(cs[k], cs[k].price.value, query, lists)
            && UsableEntries(RepricedCandidate(cs, k, price), query, lists) == Repriced(us, i, price)
  {
    var n := |cs| - 1;
    var changed := RepricedCandidate(cs, k, price);
    if k == n {
      assert changed[..n] == cs[..n];
      i := |UsableEntries(cs[..n], query, lists)|;
    } else {
      hide Measure;
      assert changed[..n] == RepricedCandidate(cs[..n], k, price);
      i := UsableRepriced(cs[..n], k, price, query, lists);
    }
  }

  /** The pool with one usable entry repriced: the same, or repriced in that entry's place. */
  lemma PoolRepriced(usable: seq<Entry>, k: nat, price: real) returns (i: nat)
    requires k < |usable|
    ensures var pool := Pool(usable);
            || Pool(Repriced(usable, k, price)) == pool
            || (i < |pool| && pool[i] == usable[k] && Pool(Repriced(usable, k, price)) == Repriced(pool, i, price))
  {
    var y := usable[k].(price := price);
    i := FilterReplaces(usable, (e: Entry) => !e.isPack, k, y);
    if Filter(usable, (e: Entry) => !e.isPack) == [] {
      i := FilterReplaces(usable, (e: Entry) => e.isPack, k, y);
    }
  }

  /** The closest names do not depend on a price. */
  lemma ClosestRepriced(es: seq<Entry>, k: nat, price: real) returns (i: nat)
    requires k < |es|
    ensures var closest := ClosestOf(es);
            || ClosestOf(Repriced(es, k, price)) == closest
            || (i < |closest| && closest[i] == es[k] && ClosestOf(Repriced(es, k, price)) == Repriced(closest, i, price))
  {
    var y, changed := es[k].(price := price), Repriced(es, k, price);
    forall e ensures IsClosest(es)(e) <==> IsClosest(changed)(e) {
      SameCloseness(es, k, price, e);
    }
    FilterSame(changed, IsClosest(changed), IsClosest(es));
    i := FilterReplaces(es, IsClosest(es), k, y);
  }

  lemma SameCloseness(es: seq<Entry>, k: nat, price: real, e: Entry)
    requires k < |es|
    ensures Closest(Repriced(es, k, price), e) <==> Closest(es, e)
    ensures Closest(es, e.(price := price)) <==> Closest(es, e)
  {
    var changed := Repriced(es, k, price);
    ClosestByIndex(es, e);
    ClosestByIndex(changed, e);
    ClosestByIndex(es, e.(price := price));
    hide Closest;
    assert forall j :: 0 <= j < |es| ==> (NoFurther(e, changed[j]) <==> NoFurther(e, es[j]));
  }

  lemma ClosestByIndex(es: seq<Entry>, e: Entry)
    ensures Closest(es, e) <==> forall j :: 0 <= j < |es| ==> NoFurther(e, es[j])
  {
    hide NoFurther;
  }

  /** The entry is dropped among the closest names, with its own price and with the other. */
  predicate DroppedAt(closest: seq<Entry>, e: Entry, price: real) {
    |closest| >= 3 && 0.0 <= Cut(closest)
    && Value(e, AllSized(closest)) < Cut(closest) && Value(e.(price := price), AllSized(closest)) < Cut(closest)
  }

  /**
   * Moving the price of a usable candidate leaves the whole selection as it was, if its name is not among the closest,
   * or if it is dropped there with the old price and with the new one.
   */
  lemma RepricingIsIgnored(query: seq<string>, cs: seq<Candidate>, lists: Lists, k: nat, price: real)
    requires k < |cs| && Usable(cs[k])
    requires var closest := ClosestOf(Pool(UsableEntries(cs, query, lists)));
             var e := Measure(cs[k], cs[k].price.value, query, lists);
             e in closest ==> DroppedAt(closest, e, price)
    ensures Best(query, RepricedCandidate(cs, k, price), lists) == Best(query, cs, lists)
  {
    hide Measure;
    hide Pool;
    hide PickClosest;
    hide ClosestOf;
    hide CheapestPlausible;
    hide Cut;
    hide AllSized;
    var usable := UsableEntries(cs, query, lists);
    var i := UsableRepriced(cs, k, price, query, lists);
    var pool, pool' := Pool(usable), Pool(Repriced(usable, i, price));
    var j := PoolRepriced(usable, i, price);
    if pool' != pool {
      assert pool' == Repriced(pool, j, price);
      NarrowingIsLexicographicMinimum(pool);
      NarrowingIsLexicographicMinimum(pool');
      var n := ClosestRepriced(pool, j, price);
      if ClosestOf(pool') != ClosestOf(pool) {
        DroppedListingIsIgnored(ClosestOf(pool), n, price);
      }
    }
  }

  lemma PoolIs(usable: seq<Entry>, e: Entry)
    ensures e in Pool(usable) <==> e in usable && (e.isPack ==> forall f <- usable :: f.isPack)
  {
    forall x ensures x in Filter(usable, (e: Entry) => !e.isPack) <==> x in usable && !x.isPack {
      FilterKeeps(usable, (e: Entry) => !e.isPack, x);
    }
    forall x ensures x in Filter(usable, (e: Entry) => e.isPack) <==> x in usable && x.isPack {
      FilterKeeps(usable, (e: Entry) => e.isPack, x);
    }
    if Filter(usable, (e: Entry) => !e.isPack) != [] {
      assert Filter(usable, (e: Entry) => !e.isPack)[0] in usable;
    }
  }

  lemma PoolIsEmpty(usable: seq<Entry>)
    ensures Pool(usable) == [] <==> usable == []
  {
    if usable != [] {
      FilterKeeps(usable, (e: Entry) => !e.isPack, usable[0]);
      FilterKeeps(usable, (e: Entry) => e.isPack, usable[0]);
    }
  }

  lemma PickedComesFrom(es: seq<Entry>)
    requires CheapestPlausible(es).Some?
    ensures CheapestPlausible(es).value in es
  {
    hide Cut;
    hide AllSized;
    var kept := Plausible(es);
    CheapestIsFirstLeast(kept, AllSized(es));
    assert Cheapest(kept, AllSized(es)) in kept;
    if |es| >= 3 {
      FilterKeeps(es, AtLeast(Cut(es), AllSized(es)), Cheapest(kept, AllSized(es)));
    }
  }

  /** The candidate may be shown: it is usable, and is no pack unless everything usable is one. */
  predicate Eligible(cs: seq<Candidate>, c: Candidate) {
    c in cs && Usable(c) && (c.isPack ==> forall d <- cs :: Usable(d) ==> d.isPack)
  }

  predicate IsFirstCheapest(es: seq<Entry>, sized: bool, e: Entry) {
    exists i :: 0 <= i < |es| && es[i] == e && FirstLeast(es, sized, i)
  }

  /** What is picked is the first of the cheapest entries that are plausible among the closest names. */
  lemma PickIsFirstCheapest(query: seq<string>, cs: seq<Candidate>, lists: Lists)
    requires Best(query, cs, lists).Picked?
    ensures var closest := ClosestOf(Pool(UsableEntries(cs, query, lists)));
            IsFirstCheapest(Plausible(closest), AllSized(closest), Best(query, cs, lists).entry)
  {
    hide PickClosest;
    hide Pool;
    hide Plausible;
    hide FirstLeast;
    hide AllSized;
    var pool := Pool(UsableEntries(cs, query, lists));
    NarrowingIsLexicographicMinimum(pool);
    var closest := ClosestOf(pool);
    assert Best(query, cs, lists) == Picked(Cheapest(Plausible(closest), AllSized(closest)));
    hide Best;
    hide ClosestOf;
    CheapestIsFirstLeast(Plausible(closest), AllSized(closest));
  }

  /**
   * Nothing is picked exactly when nothing is usable. What is picked measures an eligible candidate whose
   * name no eligible candidate's name beats, and is the first of the cheapest that are plausible among those.
   */
  lemma SelectionMeaning(query: seq<string>, cs: seq<Candidate>, lists: Lists)
    ensures Best(query, cs, lists).Nothing? <==> forall c <- cs :: !Usable(c)
    ensures Best(query, cs, lists).Picked? ==>
              exists c :: Eligible(cs, c) && Best(query, cs, lists).entry == Measure(c, c.price.value, query, lists)
                && forall d <- cs :: Eligible(cs, d) ==>
                     NoFurther(Best(query, cs, lists).entry, Measure(d, d.price.value, query, lists))
    ensures Best(query, cs, lists).Picked? ==>
              var closest := ClosestOf(Pool(UsableEntries(cs, query, lists)));
              IsFirstCheapest(Plausible(closest), AllSized(closest), Best(query, cs, lists).entry)
  {
    if Best(query, cs, lists).Picked? {
      PickIsFirstCheapest(query, cs, lists);
    }
    hide FirstLeast;
    hide Plausible;
    hide ClosestOf;
    hide Measure;
    hide Closest;
    hide NoFurther;
    hide CheapestPlausible;
    hide PickClosest;
    hide Pool;
    var usable := UsableEntries(cs, query, lists);
    forall e
      ensures e in usable <==> exists c <- cs :: Usable(c) && e == Measure(c, c.price.value, query, lists)
      ensures e in Pool(usable) <==> e in usable && (e.isPack ==> forall f <- usable :: f.isPack)
    {
      EntriesAreUsable(cs, query, lists, e);
      PoolIs(usable, e);
    }
    SomeUsable(cs, query, lists);
    PoolIsEmpty(usable);
    forall c | c in cs && Usable(c)
      ensures Eligible(cs, c) <==> Measure(c, c.price.value, query, lists) in Pool(usable)
    {
      EligibleIsPooled(cs, c, query, lists);
    }
    var pool := Pool(usable);
    if pool != [] {
      StagesAreMinima(pool, pool[0]);
      var picked := CheapestPlausible(PickClosest(pool));
      if picked.Some? {
        PickedComesFrom(PickClosest(pool));
        StagesAreMinima(pool, picked.value);
        ClosestBeats(pool, picked.value);
      }
    }
  }

  /** Without negative prices the selection never fails on an emptied list. */
  lemma SelectionNeverFails(query: seq<string>, cs: seq<Candidate>, lists: Lists)
    requires forall c <- cs :: Usable(c) ==> c.price.value >= 0.0
    ensures !Best(query, cs, lists).Fails?
  {
    hide CheapestPlausible;
    hide PickClosest;
    hide Pool;
    hide AllSized;
    hide Cut;
    var usable := UsableEntries(cs, query, lists);
    var pool := Pool(usable);
    if pool != [] {
      StagesAreMinima(pool, pool[0]);
      var kept := PickClosest(pool);
      NoPickIff(kept);
      StagesAreMinima(pool, kept[0]);
      PoolIs(usable, kept[0]);
      EntriesAreUsable(cs, query, lists, kept[0]);
      assert kept[0].price >= 0.0;
      assert Value(kept[0], AllSized(kept)) >= 0.0;
    }
  }

  lemma ClosestBeats(pool: seq<Entry>, e: Entry)
    requires Closest(pool, e)
    ensures forall f <- pool :: NoFurther(e, f)
  {
  }

  lemma {:induction false} SomeUsable(cs: seq<Candidate>, query: seq<string>, lists: Lists)
    ensures UsableEntries(cs, query, lists) == [] <==> forall c <- cs :: !Usable(c)
  {
    if cs != [] {
      SomeUsable(cs[..|cs| - 1], query, lists);
      assert cs == cs[..|cs| - 1] + [cs[|cs| - 1]];
    }
  }

  lemma EligibleIsPooled(cs: seq<Candidate>, c: Candidate, query: seq<string>, lists: Lists)
    requires c in cs && Usable(c)
    ensures Eligible(cs, c) <==> Measure(c, c.price.value, query, lists) in Pool(UsableEntries(cs, query, lists))
  {
    hide Pool;
    hide UsableEntries;
    var usable := UsableEntries(cs, query, lists);
    var e := Measure(c, c.price.value, query, lists);
    PoolIs(usable, e);
    EntriesAreUsable(cs, query, lists, e);
    assert e.isPack == c.isPack;
    forall d | d in cs && Usable(d)
      ensures Measure(d, d.price.value, query, lists) in usable && Measure(d, d.price.value, query, lists).isPack == d.isPack
    {
      EntriesAreUsable(cs, query, lists, Measure(d, d.price.value, query, lists));
    }
    forall f | f in usable
      ensures exists d <- cs :: Usable(d) && f.isPack == d.isPack
    {
      EntriesAreUsable(cs, query, lists, f);
    }
  }

  method ReduceCheapest(es: seq<Entry>, sized: bool) returns (best: Entry)
    requires es != []
    ensures best == Cheapest(es, sized)
  {
    best := es[0];
    assert es[..1] == [es[0]];
    for i := 1 to |es|
      invariant best == Cheapest(es[..i], sized)
    {
      assert es[..i + 1][..i] == es[..i];
      if Value(es[i], sized) < Value(best, sized) {
        best := es[i];
      }
    }
    assert es[..|es|] == es;
  }

  method SelectBestCandidate(query: seq<string>, cs: seq<Candidate>, lists: Lists) returns (best: Selection)
    ensures best == Best(query, cs, lists)
  {
    var usable: seq<Entry> := [];
    for i := 0 to |cs|
      invariant usable == UsableEntries(cs[..i], query, lists)
    {
      var c := cs[i];
      assert cs[..i + 1][..i] == cs[..i];
      if c.price.None? || c.name == "" || c.irrelevant || c.sizeMismatch {
        continue;
      }
      assert WordSet(query) == set w | w in query;
      var extra := CountExtraWords(WordSet(query), WordSet(c.words), lists);
      var form := HasUnrequestedFormWord(WordSet(query), c.words, lists);
      var head := c.words != [] && c.words[0] != "" && c.words[0] !in query;
      SameWords(c.words, WordSet(query), lists);
      usable := usable + [Entry(c.url, c.price.value, c.isPack, c.size, c.kind, extra, head, form)];
    }
    assert cs[..|cs|] == cs;
    var pool := Pool(usable);
    if pool == [] {
      return Nothing;
    }
    StagesAreMinima(pool, pool[0]);
    var closest := PickClosest(pool);
    var kept := Plausible(closest);
    if kept == [] {
      return Fails;
    }
    var e := ReduceCheapest(kept, AllSized(closest));
    return Picked(e);
  }

  lemma SameWords(ws: seq<string>, query: set<string>, lists: Lists)
    ensures (set w | w in WordSet(ws) && !Accounted(w, query, lists)) == set w | w in ws && !Accounted(w, query, lists)
  {
  }

  // ----- Doubting a store's pick -----

  /** One store's pick, as the cross-store check sees it. */
  datatype Pick = Pick(store: string, price: Option<real>, isPack: bool, excluded: bool, size: real, kind: string)

  const OUTLIER_RATIO := 3.0

  predicate Comparable(p: Pick) {
    p.price.Some? && !p.isPack && !p.excluded && p.size > 0.0 && p.kind != ""
  }

  function UnitPrice(p: Pick): real
    requires Comparable(p)
  {
    p.price.value * 1000.0 / p.size
  }

  function Sized(ps: seq<Pick>): (r: seq<Pick>)
    ensures forall p <- r :: Comparable(p)
  {
    if ps == [] then [] else (if Comparable(ps[0]) then [ps[0]] else []) + Sized(ps[1..])
  }

  /** At least three comparable picks, all sold by the same kind of unit. */
  predicate EnoughToCompare(sized: seq<Pick>) {
    |sized| >= 3 && |set p | p in sized :: p.kind| == 1
  }

  /** More than three times the unit price of some other store, when no other store's price is absurd. */
  predicate Outlier(sized: seq<Pick>, p: Pick)
    requires forall q <- sized :: Comparable(q)
    requires Comparable(p)
  {
    && (forall q <- sized :: q.store != p.store ==> UnitPrice(q) > 0.0)
    && exists q <- sized :: q.store != p.store && UnitPrice(p) > OUTLIER_RATIO * UnitPrice(q)
  }

  /** The least unit price among the other stores' picks; None when there are no others. */
  method LeastOther(sized: seq<Pick>, store: string) returns (least: Option<real>)
    requires forall q <- sized :: Comparable(q)
    ensures least.None? <==> forall q <- sized :: q.store == store
    ensures least.Some? ==> (exists q <- sized :: q.store != store && UnitPrice(q) == least.value)
    ensures least.Some? ==> forall q <- sized :: q.store != store ==> least.value <= UnitPrice(q)
  {
    least := None;
    for i := 0 to |sized|
      invariant least.None? <==> forall k :: 0 <= k < i ==> sized[k].store == store
      invariant least.Some? ==> (exists k :: 0 <= k < i && sized[k].store != store && UnitPrice(sized[k]) == least.value)
      invariant least.Some? ==> forall k :: 0 <= k < i && sized[k].store != store ==> least.value <= UnitPrice(sized[k])
    {
      if sized[i].store != store && (least.None? || UnitPrice(sized[i]) < least.value) {
        least := Some(UnitPrice(sized[i]));
      }
    }
  }

  /** A single unit with a price and a size of some kind, not left out by its user. */
  function Known(): Pick -> bool {
    (p: Pick) => p.price != None && !p.isPack && !p.excluded && p.size > 0.0 && p.kind != ""
  }

  /** It costs more than three times as much by the unit. */
  predicate Thrice(p: Pick, q: Pick)
    requires p.price.Some? && q.price.Some?
  {
    p.price.value * q.size > 3.0 * (q.price.value * p.size)
  }

  lemma {:induction false} SizedIsFilter(ps: seq<Pick>)
    ensures Sized(ps) == Filter(ps, Known())
  {
    if ps != [] {
      SizedIsFilter(ps[1..]);
    }
  }

  lemma UnitPriceOrder(p: Pick, q: Pick)
    requires Comparable(p) && Comparable(q)
    ensures UnitPrice(p) > OUTLIER_RATIO * UnitPrice(q) <==> Thrice(p, q)
    ensures UnitPrice(q) > 0.0 <==> q.price.value > 0.0
  {
    var a, b := p.price.value * 1000.0, 3.0 * (q.price.value * 1000.0);
    CrossMultiply(a, p.size, b, q.size);
    assert 3.0 * (q.price.value * 1000.0) / q.size == 3.0 * UnitPrice(q);
    assert a * q.size == 1000.0 * (p.price.value * q.size);
    assert b * p.size == 1000.0 * (3.0 * (q.price.value * p.size));
    CrossMultiply(q.price.value * 1000.0, q.size, 0.0, 1.0);
  }

  lemma {:induction false} KnownAre(ps: seq<Pick>, p: Pick)
    ensures p in Filter(ps, Known()) <==> p in ps && p.price != None && !p.isPack && !p.excluded && p.size > 0.0 && p.kind != ""
  {
    FilterKeeps(ps, Known(), p);
  }

  lemma OneKindIff(known: seq<Pick>)
    requires known != []
    ensures |set p | p in known :: p.kind| == 1 <==> forall p <- known :: p.kind == known[0].kind
  {
    var kinds := set p | p in known :: p.kind;
    var kind := known[0].kind;
    assert known[0] in known && kind in kinds;
    if forall p <- known :: p.kind == kind {
      assert kinds == {kind};
    } else if |kinds| == 1 {
      assert |kinds - {kind}| == 0;
      forall p | p in known ensures p.kind == kind {
        assert p.kind in kinds && p.kind !in kinds - {kind};
      }
    }
  }

  /** Every other store's price is positive, and this one costs more than three times as much by the unit as one of them. */
  predicate Doubtful(known: seq<Pick>, p: Pick)
    requires p.price.Some? && forall q <- known :: q.price.Some?
  {
    && (forall q <- known :: q.store != p.store ==> q.price.value > 0.0)
    && exists q <- known :: q.store != p.store && Thrice(p, q)
  }

  lemma DoubtfulIff(known: seq<Pick>, p: Pick)
    requires Comparable(p) && forall q <- known :: Comparable(q)
    ensures Outlier(known, p) <==> Doubtful(known, p)
  {
    forall q | q in known
      ensures (UnitPrice(p) > OUTLIER_RATIO * UnitPrice(q) <==> Thrice(p, q)) && (UnitPrice(q) > 0.0 <==> q.price.value > 0.0)
    {
      UnitPriceOrder(p, q);
    }
    hide UnitPrice;
    hide Thrice;
  }

  lemma KnownHavePrices(picks: seq<Pick>)
    ensures forall p <- Filter(picks, Known()) :: p.price.Some? && Comparable(p)
  {
    forall p | p in Filter(picks, Known()) ensures p.price.Some? && Comparable(p) {
      KnownAre(picks, p);
    }
  }

  /**
   * Which stores are doubted, in prices and sizes: three or more picks can be compared, all by one unit, every other
   * store's price is positive, and the store's pick costs more than three times as much by the unit as one of theirs.
   */
  lemma DoubtedIff(picks: seq<Pick>, s: string)
    ensures var sized, known := Sized(picks), Filter(picks, Known());
            (EnoughToCompare(sized) && exists p <- sized :: p.store == s && Outlier(sized, p)) <==>
              && |known| >= 3 && (forall p <- known :: p.kind == known[0].kind)
              && (forall p <- known :: p.price.Some?)
              && exists p <- known :: p.store == s && Doubtful(known, p)
  {
    var known := Filter(picks, Known());
    SizedIsFilter(picks);
    KnownHavePrices(picks);
    hide Known;
    if |known| >= 3 {
      OneKindIff(known);
      forall p | p in known ensures Outlier(known, p) <==> Doubtful(known, p) {
        DoubtfulIff(known, p);
      }
    }
    hide Outlier;
    hide Doubtful;
    hide Comparable;
  }

  method FindCrossStoreOutliers(picks: seq<Pick>) returns (out: set<string>)
    ensures var sized := Sized(picks);
            forall s :: s in out <==> EnoughToCompare(sized) && exists p <- sized :: p.store == s && Outlier(sized, p)
  {
    hide UnitPrice;
    hide Comparable;
    hide Outlier;
    out := {};
    var sized := Sized(picks);
    if |sized| < 3 || |set p | p in sized :: p.kind| != 1 {
      return;
    }
    for i := 0 to |sized|
      invariant forall s :: s in out <==> exists k :: 0 <= k < i && sized[k].store == s && Outlier(sized, sized[k])
    {
      var least := LeastOther(sized, sized[i].store);
      LeastDecides(sized, sized[i], least);
      if least.Some? && least.value > 0.0 && UnitPrice(sized[i]) > OUTLIER_RATIO * least.value {
        out := out + {sized[i].store};
      }
    }
  }

  lemma LeastDecides(sized: seq<Pick>, p: Pick, least: Option<real>)
    requires (forall q <- sized :: Comparable(q)) && Comparable(p)
    requires least.None? <==> forall q <- sized :: q.store == p.store
    requires least.Some? ==> exists q <- sized :: q.store != p.store && UnitPrice(q) == least.value
    requires least.Some? ==> forall q <- sized :: q.store != p.store ==> least.value <= UnitPrice(q)
    ensures Outlier(sized, p) <==> least.Some? && least.value > 0.0 && UnitPrice(p) > OUTLIER_RATIO * least.value
  {
    hide Comparable;
    hide UnitPrice;
  }

  /** A store whose unit price no other store undercuts is never doubted: the check cannot reject every pick. */
  lemma CheapestIsNeverOutlier(sized: seq<Pick>, p: Pick)
    requires (forall q <- sized :: Comparable(q)) && Comparable(p)
    requires forall q <- sized :: UnitPrice(p) <= UnitPrice(q)
    ensures !Outlier(sized, p)
  {
    hide Comparable;
    hide UnitPrice;
  }
}
