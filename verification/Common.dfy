/** Small value types and sequence vocabulary shared by the models. */
module Common {

  datatype Option<+T> = None | Some(value: T)

  datatype Result<+T> = Ok(value: T) | Err(message: string)

  function GetOr<T>(o: Option<T>, default: T): T {
    if o.Some? then o.value else default
  }

  /** No value occurs twice. */
  predicate Distinct<T(==)>(xs: seq<T>) {
    forall i, j :: 0 <= i < j < |xs| ==> xs[i] != xs[j]
  }

  lemma Assoc<T>(a: seq<T>, b: seq<T>, c: seq<T>)
    ensures a + b + c == a + (b + c)
  {
  }

  /** Cutting a text at its seams. */
  lemma Cut<T>(p: seq<T>, b: seq<T>, r: seq<T>)
    ensures (p + b + r)[..|p|] == p
    ensures (p + b + r)[|p|..|p| + |b|] == b
    ensures (p + b + r)[|p| + |b|..] == r
  {
  }

  lemma Pieces<T>(t: seq<T>, from: nat, to: nat)
    requires from <= to <= |t|
    ensures t == t[..from] + t[from..to] + t[to..]
  {
  }

  /** The concatenation of a list of lists. */
  function Flatten<T>(xss: seq<seq<T>>): seq<T> {
    if xss == [] then [] else xss[0] + Flatten(xss[1..])
  }

  lemma {:induction false} FlattenAppend<T>(xss: seq<seq<T>>, yss: seq<seq<T>>)
    ensures Flatten(xss + yss) == Flatten(xss) + Flatten(yss)
  {
    if xss == [] {
      assert xss + yss == yss;
    } else {
      FlattenAppend(xss[1..], yss);
      assert (xss + yss)[0] == xss[0] && (xss + yss)[1..] == xss[1..] + yss;
      Assoc(xss[0], Flatten(xss[1..]), Flatten(yss));
    }
  }

  lemma FlattenSnoc<T>(xss: seq<seq<T>>, xs: seq<T>)
    ensures Flatten(xss + [xs]) == Flatten(xss) + xs
  {
    FlattenAppend(xss, [xs]);
    assert Flatten([xs]) == xs + Flatten<T>([]);
  }

  /** A list cut into pages: all full but the last, none empty. */
  predicate InPages<T>(pages: seq<seq<T>>, n: nat) {
    forall i :: 0 <= i < |pages| ==> 0 < |pages[i]| <= n && (i < |pages| - 1 ==> |pages[i]| == n)
  }
}
