/** Option and the list operations that the server's queries and the client's
    state updates are built from (JavaScript's `find`, `findIndex` and
    `filter`). */
module Seqs {

  datatype Option<T> = None | Some(value: T)

  /** `a` is an order-preserving subsequence of `b`. */
  predicate IsSubsequence<T(==)>(a: seq<T>, b: seq<T>)
    decreases |b|
  {
    a == [] ||
    (b != [] &&
     ((a[0] == b[0] && IsSubsequence(a[1..], b[1..])) || IsSubsequence(a, b[1..])))
  }

  lemma {:induction false} SubsequenceLength<T>(a: seq<T>, b: seq<T>)
    requires IsSubsequence(a, b)
    ensures |a| <= |b|
    decreases |b|
  {
    if a != [] {
      if a[0] == b[0] && IsSubsequence(a[1..], b[1..]) {
        SubsequenceLength(a[1..], b[1..]);
      } else {
        SubsequenceLength(a, b[1..]);
      }
    }
  }

  lemma {:induction false} SubsequenceReflexive<T>(s: seq<T>)
    ensures IsSubsequence(s, s)
    decreases |s|
  {
    if s != [] {
      SubsequenceReflexive(s[1..]);
    }
  }

  /** JavaScript's `Array.prototype.filter`: the elements satisfying `p`, in order. */
  function Filter<T>(s: seq<T>, p: T -> bool): (r: seq<T>)
    ensures forall i | 0 <= i < |r| :: r[i] in s && p(r[i])
    ensures forall i | 0 <= i < |s| :: p(s[i]) ==> s[i] in r
    ensures IsSubsequence(r, s)
    ensures |r| <= |s|
    ensures (forall i | 0 <= i < |s| :: p(s[i])) ==> r == s
    ensures (forall i | 0 <= i < |s| :: !p(s[i])) ==> r == []
  {
    if s == [] then []
    else
      var rest := Filter(s[1..], p);
      assert IsSubsequence(rest, s[1..]);
      SubsequenceLength(rest, s[1..]);
      if p(s[0]) then
        var r := [s[0]] + rest;
        assert r[0] == s[0] && r[1..] == rest;
        r
      else
        rest
  }

  /** One step of `Filter`. */
  lemma FilterCons<T>(s: seq<T>, p: T -> bool)
    requires s != []
    ensures Filter(s, p) == if p(s[0]) then [s[0]] + Filter(s[1..], p) else Filter(s[1..], p)
  {
  }

  /** JavaScript's `findIndex`: the first position whose element satisfies `p`. */
  function IndexWhere<T>(s: seq<T>, p: T -> bool): (r: Option<nat>)
    ensures r.Some? ==> r.value < |s| && p(s[r.value])
    ensures r.Some? ==> forall j | 0 <= j < r.value :: !p(s[j])
    ensures r.None? <==> forall j | 0 <= j < |s| :: !p(s[j])
  {
    if s == [] then None
    else if p(s[0]) then Some(0)
    else
      match IndexWhere(s[1..], p)
      case None => None
      case Some(k) => Some(k + 1)
  }

  lemma IndexWhereAt<T>(s: seq<T>, p: T -> bool, k: nat)
    requires k < |s| && p(s[k]) && forall j | 0 <= j < k :: !p(s[j])
    ensures IndexWhere(s, p) == Some(k)
  {
  }

  /** The sequence without its element at position `i`. */
  function RemoveAt<T>(s: seq<T>, i: nat): (r: seq<T>)
    requires i < |s|
    ensures |r| == |s| - 1
    ensures forall j | 0 <= j < i :: r[j] == s[j]
    ensures forall j | i <= j < |r| :: r[j] == s[j + 1]
  {
    s[..i] + s[i + 1..]
  }

  lemma RemoveAtMembers<T>(s: seq<T>, i: nat, x: T)
    requires i < |s|
    ensures x in RemoveAt(s, i) ==> x in s
  {
    if x in RemoveAt(s, i) {
      var j :| 0 <= j < |RemoveAt(s, i)| && RemoveAt(s, i)[j] == x;
      if j < i { assert s[j] == x; } else { assert s[j + 1] == x; }
    }
  }
}
