/**
 * The passwords backend/src/services/appEnv.ts generates for apps with a complexity policy. The random draws are
 * arguments.
 */
module Passwords {
  import opened Common
  import opened Strings
  import opened EnvText

  const LOWER := "abcdefghijkmnpqrstuvwxyz"
  const UPPER := "ABCDEFGHJKLMNPQRSTUVWXYZ"
  const DIGIT := "23456789"
  const SPECIAL := "!@#%^*-_=+"
  const ALL := LOWER + UPPER + DIGIT + SPECIAL

  predicate HasOneOf(s: seq<char>, chars: string) {
    exists c <- s :: c in chars
  }

  /** The random draws: one index per character, and one per shuffle step `i`, at most `i`. */
  predicate Draws(picks: seq<nat>, swaps: seq<nat>) {
    && |picks| == 24 && |swaps| == 24
    && picks[0] < |LOWER| && picks[1] < |UPPER| && picks[2] < |DIGIT| && picks[3] < |SPECIAL|
    && (forall i :: 4 <= i < 24 ==> picks[i] < |ALL|)
    && (forall i :: 0 < i < 24 ==> swaps[i] <= i)
  }

  /**
   * A password of 24 characters with a lower-case and an upper-case letter, a digit and a special character,
   * written to a `.env` file exactly as it is, whatever the draws.
   */
  method GenerateComplexPassword(picks: seq<nat>, swaps: seq<nat>) returns (password: string)
    requires Draws(picks, swaps)
    ensures |password| == 24
    ensures exists k :: 0 <= k < 24 && 'a' <= password[k] <= 'z'
    ensures exists k :: 0 <= k < 24 && 'A' <= password[k] <= 'Z'
    ensures exists k :: 0 <= k < 24 && '0' <= password[k] <= '9'
    ensures HasOneOf(password, "!@#%^*-_=+")
    ensures forall c <- password :: c !in "$'\"`\\ "
    ensures password == Shuffled(Picked(picks), swaps, 23)
    ensures Trimmed(password) && OneLine(password) && Escape(password) == password
  {
    hide LOWER;
    hide UPPER;
    hide DIGIT;
    hide SPECIAL;
    hide ALL;
    var chars := PickCharacters(picks);
    PickedHasAll(picks);
    Shuffle(chars, swaps);
    password := chars[..];
    ShuffledPermutes(Picked(picks), swaps, 23);
    SameCharacters(Picked(picks), password);
    AlphabetIsPlain();
    NeedsNoEscaping(password);
    ClassesAre(password);
  }

  /** The characters drawn: one of each class, then any. */
  function Picked(picks: seq<nat>): (s: string)
    requires |picks| == 24
    requires picks[0] < |LOWER| && picks[1] < |UPPER| && picks[2] < |DIGIT| && picks[3] < |SPECIAL|
    requires forall i :: 4 <= i < 24 ==> picks[i] < |ALL|
    ensures |s| == 24
  {
    [LOWER[picks[0]], UPPER[picks[1]], DIGIT[picks[2]], SPECIAL[picks[3]]]
    + seq(20, k requires 0 <= k < 20 => ALL[picks[k + 4]])
  }

  /** One character of each class, then any. */
  method PickCharacters(picks: seq<nat>) returns (chars: array<char>)
    requires |picks| == 24
    requires picks[0] < |LOWER| && picks[1] < |UPPER| && picks[2] < |DIGIT| && picks[3] < |SPECIAL|
    requires forall i :: 4 <= i < 24 ==> picks[i] < |ALL|
    ensures fresh(chars) && chars.Length == 24 && chars[..] == Picked(picks)
  {
    hide LOWER;
    hide UPPER;
    hide DIGIT;
    hide SPECIAL;
    hide ALL;
    chars := new char[24];
    chars[0], chars[1], chars[2], chars[3] := LOWER[picks[0]], UPPER[picks[1]], DIGIT[picks[2]], SPECIAL[picks[3]];
    for n := 4 to 24
      invariant chars[..4] == Picked(picks)[..4]
      invariant forall k :: 4 <= k < n ==> chars[k] == Picked(picks)[k]
    {
      chars[n] := ALL[picks[n]];
    }
  }

  function Swapped(s: string, i: nat, j: nat): (r: string)
    requires i < |s| && j < |s|
    ensures |r| == |s|
  {
    s[i := s[j]][j := s[i]]
  }

  /** The places from `n` down are swapped in turn, each with the one drawn for it. */
  function Shuffled(s: string, swaps: seq<nat>, n: nat): (r: string)
    requires |swaps| == |s| && n < |s| && forall i :: 0 < i < |swaps| ==> swaps[i] <= i
    ensures |r| == |s|
    decreases n
  {
    if n == 0 then s else Shuffled(Swapped(s, n, swaps[n]), swaps, n - 1)
  }

  method Shuffle(chars: array<char>, swaps: seq<nat>)
    requires |swaps| == chars.Length && forall i :: 0 < i < |swaps| ==> swaps[i] <= i
    requires chars.Length > 0
    modifies chars
    ensures chars[..] == Shuffled(old(chars[..]), swaps, chars.Length - 1)
  {
    for i := chars.Length downto 1
      invariant Shuffled(chars[..], swaps, i - 1) == Shuffled(old(chars[..]), swaps, chars.Length - 1)
    {
      var j := swaps[i];
      ghost var before := chars[..];
      chars[i], chars[j] := chars[j], chars[i];
      assert chars[..] == Swapped(before, i, j);
    }
  }

  lemma {:induction false} ShuffledPermutes(s: string, swaps: seq<nat>, n: nat)
    requires |swaps| == |s| && n < |s| && forall i :: 0 < i < |swaps| ==> swaps[i] <= i
    ensures multiset(Shuffled(s, swaps, n)) == multiset(s)
    decreases n
  {
    if n > 0 {
      ShuffledPermutes(Swapped(s, n, swaps[n]), swaps, n - 1);
    }
  }

  /** Any order of the characters can come out: the draws that make it. */
  lemma {:induction false} AnyOrderCanCome(s: string, t: string, n: nat) returns (swaps: seq<nat>)
    requires |s| == |t| && n < |s|
    requires multiset(s[..n + 1]) == multiset(t[..n + 1]) && s[n + 1..] == t[n + 1..]
    ensures |swaps| == |s| && (forall i :: 0 < i < |swaps| ==> swaps[i] <= i)
    ensures Shuffled(s, swaps, n) == t
    decreases n
  {
    if n == 0 {
      swaps := seq(|s|, _ => 0);
      LastPlace(s, t);
    } else {
      var j := PlaceOf(s[..n + 1], t[n], t[..n + 1]);
      var next := Swapped(s, n, j);
      SwapFits(s, t, n, j);
      var rest := AnyOrderCanCome(next, t, n - 1);
      swaps := rest[n := j];
      SameShuffle(next, rest, swaps, n - 1);
    }
  }

  lemma LastPlace(s: string, t: string)
    requires |s| == |t| > 0 && multiset(s[..1]) == multiset(t[..1]) && s[1..] == t[1..]
    ensures s == t
  {
    assert s[..1] == [s[0]] && t[..1] == [t[0]];
    assert multiset(s[..1])[s[0]] == 1 && s[0] in multiset(t[..1]);
    assert s == [s[0]] + s[1..] && t == [t[0]] + t[1..];
  }

  lemma PlaceOf(s: string, c: char, t: string) returns (j: nat)
    requires multiset(s) == multiset(t) && c in t
    ensures j < |s| && s[j] == c
  {
    assert c in multiset(t) && c in multiset(s);
    j :| 0 <= j < |s| && s[j] == c;
  }

  lemma PartsOfSwap(s: string, n: nat, j: nat)
    requires n < |s| && j <= n
    ensures Swapped(s, n, j)[..n + 1] == Swapped(s[..n + 1], n, j)
    ensures Swapped(s, n, j)[n + 1..] == s[n + 1..]
  {
  }

  lemma SwapPermutes(s: string, i: nat, j: nat)
    requires i < |s| && j < |s|
    ensures multiset(Swapped(s, i, j)) == multiset(s)
  {
  }

  lemma CountsOfSnoc(s: string, c: char)
    ensures multiset(s + [c]) == multiset(s) + multiset{c}
  {
  }

  lemma SameRest(a: multiset<char>, b: multiset<char>, c: char)
    requires a + multiset{c} == b + multiset{c}
    ensures a == b
  {
    forall x ensures a[x] == b[x] {
      assert (a + multiset{c})[x] == a[x] + multiset{c}[x] && (b + multiset{c})[x] == b[x] + multiset{c}[x];
    }
  }

  lemma DropLast(a: string, b: string)
    requires a != "" && b != "" && multiset(a) == multiset(b) && a[|a| - 1] == b[|b| - 1]
    ensures multiset(a[..|a| - 1]) == multiset(b[..|b| - 1])
  {
    var c := a[|a| - 1];
    assert a == a[..|a| - 1] + [c] && b == b[..|b| - 1] + [c];
    CountsOfSnoc(a[..|a| - 1], c);
    CountsOfSnoc(b[..|b| - 1], c);
    SameRest(multiset(a[..|a| - 1]), multiset(b[..|b| - 1]), c);
  }

  lemma SwapFits(s: string, t: string, n: nat, j: nat)
    requires |s| == |t| && 0 < n < |s| && j <= n && s[j] == t[n]
    requires multiset(s[..n + 1]) == multiset(t[..n + 1]) && s[n + 1..] == t[n + 1..]
    ensures var next := Swapped(s, n, j);
            multiset(next[..n]) == multiset(t[..n]) && next[n..] == t[n..]
  {
    var next := Swapped(s, n, j);
    var a, b := next[..n + 1], t[..n + 1];
    PartsOfSwap(s, n, j);
    SwapPermutes(s[..n + 1], n, j);
    assert next[n] == t[n];
    hide Swapped;
    assert a[n] == next[n] && b[n] == t[n];
    DropLast(a, b);
    assert a[..n] == next[..n] && b[..n] == t[..n];
    assert next[n..] == [next[n]] + next[n + 1..] && t[n..] == [t[n]] + t[n + 1..];
  }

  lemma {:induction false} SameShuffle(s: string, a: seq<nat>, b: seq<nat>, n: nat)
    requires |a| == |b| == |s| && n < |s|
    requires (forall i :: 0 < i < |a| ==> a[i] <= i) && forall i :: 0 < i < |b| ==> b[i] <= i
    requires forall i :: 0 < i <= n ==> a[i] == b[i]
    ensures Shuffled(s, a, n) == Shuffled(s, b, n)
    decreases n
  {
    if n > 0 {
      SameShuffle(Swapped(s, n, a[n]), a, b, n - 1);
    }
  }

  /** Every order of the characters drawn can be the password. */
  lemma AnyOrderOfCharacters(s: string, t: string) returns (swaps: seq<nat>)
    requires s != "" && multiset(s) == multiset(t)
    ensures |swaps| == |s| && (forall i :: 0 < i < |swaps| ==> swaps[i] <= i)
    ensures Shuffled(s, swaps, |s| - 1) == t
  {
    assert |multiset(s)| == |s| && |multiset(t)| == |t|;
    assert s[..|s|] == s && t[..|s|] == t;
    swaps := AnyOrderCanCome(s, t, |s| - 1);
  }

  lemma PickedHasAll(picks: seq<nat>)
    requires |picks| == 24
    requires picks[0] < |LOWER| && picks[1] < |UPPER| && picks[2] < |DIGIT| && picks[3] < |SPECIAL|
    requires forall i :: 4 <= i < 24 ==> picks[i] < |ALL|
    ensures var s := Picked(picks);
            && (forall c <- s :: c in ALL)
            && HasOneOf(s, LOWER) && HasOneOf(s, UPPER) && HasOneOf(s, DIGIT) && HasOneOf(s, SPECIAL)
  {
    hide LOWER;
    hide UPPER;
    hide DIGIT;
    hide SPECIAL;
    var s := Picked(picks);
    assert s[0] in s && s[1] in s && s[2] in s && s[3] in s;
    InAll();
    hide ALL;
    forall k | 0 <= k < 24 ensures s[k] in ALL {
      if k >= 4 {
        assert s[k] == ALL[picks[k]];
      }
    }
  }

  lemma InAll()
    ensures forall c :: c in LOWER || c in UPPER || c in DIGIT || c in SPECIAL ==> c in ALL
  {
    hide LOWER;
    hide UPPER;
    hide DIGIT;
    hide SPECIAL;
  }

  /** The classes by their characters, and what no password holds. */
  lemma ClassesAre(s: string)
    requires |s| == 24 && (forall c <- s :: c in ALL)
    requires HasOneOf(s, LOWER) && HasOneOf(s, UPPER) && HasOneOf(s, DIGIT) && HasOneOf(s, SPECIAL)
    ensures exists k :: 0 <= k < 24 && 'a' <= s[k] <= 'z'
    ensures exists k :: 0 <= k < 24 && 'A' <= s[k] <= 'Z'
    ensures exists k :: 0 <= k < 24 && '0' <= s[k] <= '9'
    ensures HasOneOf(s, "!@#%^*-_=+")
    ensures forall c <- s :: c !in "$'\"`\\ "
  {
    LowersArePlain();
    UppersArePlain();
    OthersArePlain();
    AlphabetIsPlain();
    SpecialIs();
    NothingSpecial();
    hide LOWER;
    hide UPPER;
    hide DIGIT;
    hide SPECIAL;
    hide ALL;
    var l :| l in s && l in LOWER;
    var u :| u in s && u in UPPER;
    var d :| d in s && d in DIGIT;
  }

  lemma SpecialIs()
    ensures SPECIAL == "!@#%^*-_=+"
  {
  }

  lemma NothingSpecial()
    ensures forall c :: Plain(c) ==> c !in "$'\"`\\ "
  {
  }

  lemma SameCharacters(a: seq<char>, b: seq<char>)
    requires multiset(a) == multiset(b)
    ensures forall c :: c in a <==> c in b
  {
    forall c ensures c in a <==> c in b {
      assert c in a <==> c in multiset(a);
      assert c in b <==> c in multiset(b);
    }
  }

  predicate Plain(c: char) {
    !Blank(c) && c != '$' && c != '\n' && c != '\'' && c != '"' && c != '`' && c != '\\'
  }

  lemma LowersArePlain()
    ensures forall c <- LOWER :: Plain(c) && 'a' <= c <= 'z'
  {
    assert forall c <- LOWER :: 'a' <= c <= 'z';
  }

  lemma UppersArePlain()
    ensures forall c <- UPPER :: Plain(c) && 'A' <= c <= 'Z'
  {
    assert forall c <- UPPER :: 'A' <= c <= 'Z';
  }

  lemma OthersArePlain()
    ensures (forall c <- DIGIT :: Plain(c) && '0' <= c <= '9') && (forall c <- SPECIAL :: Plain(c))
  {
    assert forall c <- DIGIT :: '0' <= c <= '9';
  }

  lemma AlphabetIsPlain()
    ensures forall c <- ALL :: Plain(c)
  {
    hide Plain;
    hide LOWER;
    hide UPPER;
    hide DIGIT;
    hide SPECIAL;
    LowersArePlain();
    UppersArePlain();
    OthersArePlain();
    forall c | c in ALL ensures c in LOWER || c in UPPER || c in DIGIT || c in SPECIAL {
    }
  }

  lemma NeedsNoEscaping(s: string)
    requires s != "" && forall c <- s :: Plain(c)
    ensures Trimmed(s) && OneLine(s) && Escape(s) == s
  {
    hide Blank;
    assert s[0] in s && s[|s| - 1] in s;
    NoDollarNoEscape(s);
  }
}
