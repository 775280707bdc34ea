/** The string operations of JavaScript that the models share. */
module Strings {
  predicate Blank(c: char) {
    '\t' <= c <= '\r' || c == ' ' || c == '\U{A0}' || c == '\U{1680}' || '\U{2000}' <= c <= '\U{200A}'
    || c == '\U{2028}' || c == '\U{2029}' || c == '\U{202F}' || c == '\U{205F}' || c == '\U{3000}' || c == '\U{FEFF}'
  }

  function TrimLeft(s: string): string {
    if s != "" && Blank(s[0]) then TrimLeft(s[1..]) else s
  }

  function TrimRight(s: string): string {
    if s != "" && Blank(s[|s| - 1]) then TrimRight(s[..|s| - 1]) else s
  }

  function Trim(s: string): string {
    TrimLeft(TrimRight(s))
  }

  /** Lower case, of the Latin letters. */
  function Lower(s: string): string {
    seq(|s|, i requires 0 <= i < |s| => if 'A' <= s[i] <= 'Z' then (s[i] - 'A') + 'a' else s[i])
  }

  /** The white space of JavaScript, one character after the other. */
  lemma BlankIff(c: char)
    ensures Blank(c) <==>
              || c in "\U{9}\U{A}\U{B}\U{C}\U{D}\U{20}\U{A0}\U{1680}"
              || c in "\U{2000}\U{2001}\U{2002}\U{2003}\U{2004}\U{2005}"
              || c in "\U{2006}\U{2007}\U{2008}\U{2009}\U{200A}\U{2028}\U{2029}\U{202F}\U{205F}\U{3000}\U{FEFF}"
  {
    AsciiBlanks(c);
    EarlyBlanks(c);
    LateBlanks(c);
  }

  lemma AsciiBlanks(c: char)
    ensures c in "\U{9}\U{A}\U{B}\U{C}\U{D}\U{20}\U{A0}\U{1680}" <==> '\U{9}' <= c <= '\U{D}' || c == ' ' || c == '\U{A0}' || c == '\U{1680}'
  {
    var blanks := "\U{9}\U{A}\U{B}\U{C}\U{D}\U{20}\U{A0}\U{1680}";
    assert '\U{9}' <= c <= '\U{D}' ==> blanks[c as int - 9] == c;
    assert blanks[5] == ' ' && blanks[6] == '\U{A0}' && blanks[7] == '\U{1680}';
  }

  lemma EarlyBlanks(c: char)
    ensures c in "\U{2000}\U{2001}\U{2002}\U{2003}\U{2004}\U{2005}" <==> '\U{2000}' <= c <= '\U{2005}'
  {
    var blanks := "\U{2000}\U{2001}\U{2002}\U{2003}\U{2004}\U{2005}";
    assert '\U{2000}' <= c <= '\U{2005}' ==> blanks[c as int - 0x2000] == c;
  }

  lemma LateBlanks(c: char)
    ensures c in "\U{2006}\U{2007}\U{2008}\U{2009}\U{200A}\U{2028}\U{2029}\U{202F}\U{205F}\U{3000}\U{FEFF}" <==>
              '\U{2006}' <= c <= '\U{200A}' || c == '\U{2028}' || c == '\U{2029}' || c == '\U{202F}' || c == '\U{205F}'
              || c == '\U{3000}' || c == '\U{FEFF}'
  {
    var blanks := "\U{2006}\U{2007}\U{2008}\U{2009}\U{200A}\U{2028}\U{2029}\U{202F}\U{205F}\U{3000}\U{FEFF}";
    assert '\U{2006}' <= c <= '\U{200A}' ==> blanks[c as int - 0x2006] == c;
    assert blanks[5] == '\U{2028}' && blanks[6] == '\U{2029}' && blanks[7] == '\U{202F}' && blanks[8] == '\U{205F}';
    assert blanks[9] == '\U{3000}' && blanks[10] == '\U{FEFF}';
  }

  predicate AllBlank(s: string) {
    forall c <- s :: Blank(c)
  }

  /** Trimming takes the blanks at both ends of a text, and nothing else. */
  lemma TrimMeaning(s: string)
    ensures exists a, b :: AllBlank(a) && AllBlank(b) && s == a + Trim(s) + b
    ensures Trim(s) != "" ==> !Blank(Trim(s)[0]) && !Blank(Trim(s)[|Trim(s)| - 1])
  {
    var t := TrimRight(s);
    var b := TrimRightMeaning(s);
    var a := TrimLeftMeaning(t);
    assert s == a + Trim(s) + b;
    if Trim(s) != "" {
      assert t[|t| - 1] == Trim(s)[|Trim(s)| - 1];
    }
  }

  lemma {:induction false} TrimRightMeaning(s: string) returns (b: string)
    ensures AllBlank(b) && s == TrimRight(s) + b
    ensures TrimRight(s) != "" ==> !Blank(TrimRight(s)[|TrimRight(s)| - 1])
  {
    hide Blank;
    if s != "" && Blank(s[|s| - 1]) {
      b := TrimRightMeaning(s[..|s| - 1]);
      b := b + [s[|s| - 1]];
    } else {
      b := "";
    }
  }

  lemma {:induction false} TrimLeftMeaning(s: string) returns (a: string)
    ensures AllBlank(a) && s == a + TrimLeft(s)
    ensures TrimLeft(s) != "" ==> !Blank(TrimLeft(s)[0])
  {
    hide Blank;
    if s != "" && Blank(s[0]) {
      a := TrimLeftMeaning(s[1..]);
      assert s == [s[0]] + s[1..];
      a := [s[0]] + a;
    } else {
      a := "";
    }
  }

  /** Capital letters become small ones, and every other character stays. */
  lemma LowerMeaning(s: string, i: nat)
    requires i < |s|
    ensures |Lower(s)| == |s|
    ensures forall k: nat :: k < 13 && s[i] == "ABCDEFGHIJKLM"[k] ==> Lower(s)[i] == "abcdefghijklm"[k]
    ensures forall k: nat :: k < 13 && s[i] == "NOPQRSTUVWXYZ"[k] ==> Lower(s)[i] == "nopqrstuvwxyz"[k]
    ensures s[i] !in "ABCDEFGHIJKLM" && s[i] !in "NOPQRSTUVWXYZ" ==> Lower(s)[i] == s[i]
  {
    if 'A' <= s[i] <= 'M' {
      assert "ABCDEFGHIJKLM"[s[i] as int - 'A' as int] == s[i];
    }
    if 'N' <= s[i] <= 'Z' {
      assert "NOPQRSTUVWXYZ"[s[i] as int - 'N' as int] == s[i];
    }
  }

  // ----- The letters of a key -----

  lemma FirstLetters(c: char)
    ensures c in "ABCDEFGHIJKLM" <==> 'A' <= c <= 'M'
  {
    if 'A' <= c <= 'M' {
      assert "ABCDEFGHIJKLM"[c as int - 'A' as int] == c;
    }
  }

  lemma LastLetters(c: char)
    ensures c in "NOPQRSTUVWXYZ" <==> 'N' <= c <= 'Z'
  {
    if 'N' <= c <= 'Z' {
      assert "NOPQRSTUVWXYZ"[c as int - 'N' as int] == c;
    }
  }

  lemma DigitsAndUnderscore(c: char)
    ensures c in "0123456789_" <==> '0' <= c <= '9' || c == '_'
  {
    if '0' <= c <= '9' {
      assert "0123456789_"[c as int - '0' as int] == c;
    }
    assert "0123456789_"[10] == '_';
  }

  lemma AlphabetInPieces()
    ensures "ABCDEFGHIJKLMNOPQRSTUVWXYZ0123456789_" == "ABCDEFGHIJKLM" + "NOPQRSTUVWXYZ" + "0123456789_"
  {
  }

  /** Capital letters, digits and the underscore, one after the other. */
  lemma KeyAlphabet(c: char)
    ensures c in "ABCDEFGHIJKLMNOPQRSTUVWXYZ0123456789_" <==> 'A' <= c <= 'Z' || '0' <= c <= '9' || c == '_'
  {
    FirstLetters(c);
    LastLetters(c);
    DigitsAndUnderscore(c);
    AlphabetInPieces();
  }

  /** The first occurrence of a character; `|s|` when there is none. */
  function IndexOf(s: string, c: char): (i: nat)
    ensures i <= |s| && (i < |s| ==> s[i] == c)
  {
    if s == "" || s[0] == c then 0 else 1 + IndexOf(s[1..], c)
  }

  lemma {:induction false} IndexIs(a: string, c: char, b: string)
    requires c !in a
    ensures IndexOf(a + [c] + b, c) == |a|
  {
    if a != "" {
      IndexIs(a[1..], c, b);
      assert (a + [c] + b)[1..] == a[1..] + [c] + b;
    }
  }

  lemma {:induction false} NotBeforeIndex(s: string, c: char)
    ensures c !in s[..IndexOf(s, c)]
    ensures IndexOf(s, c) == |s| ==> c !in s
  {
    if s != "" && s[0] != c {
      NotBeforeIndex(s[1..], c);
      assert s[..IndexOf(s, c)] == [s[0]] + s[1..][..IndexOf(s[1..], c)];
    }
  }
}
