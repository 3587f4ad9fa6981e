/** The `.sort(...)` step of the store's queries: an insertion sort by a
    caller-supplied "comes no later than" relation. The order among keys that
    compare equal is not promised, as the store's sort does not promise it. */
module Sorting {

  /** `le` relates every pair one way or the other. */
  ghost predicate Total<T(!new)>(le: (T, T) -> bool) {
    forall a, b :: le(a, b) || le(b, a)
  }

  /** Each element comes no later than its successor. */
  predicate SortedBy<T>(s: seq<T>, le: (T, T) -> bool) {
    forall i | 0 < i < |s| :: le(s[i - 1], s[i])
  }

  function Insert<T(!new)>(x: T, s: seq<T>, le: (T, T) -> bool): (r: seq<T>)
    ensures |r| == |s| + 1
    ensures multiset(r) == multiset(s) + multiset{x}
    ensures r[0] == x || (s != [] && r[0] == s[0])
    ensures Total(le) && SortedBy(s, le) ==> SortedBy(r, le)
  {
    if s == [] || le(x, s[0]) then
      [x] + s
    else
      var rest := Insert(x, s[1..], le);
      assert s == [s[0]] + s[1..];
      var r := [s[0]] + rest;
      assert SortedBy(s, le) ==> SortedBy(s[1..], le) by {
        if SortedBy(s, le) {
          forall i | 0 < i < |s[1..]| ensures le(s[1..][i - 1], s[1..][i]) {
            assert s[1..][i - 1] == s[i] && s[1..][i] == s[i + 1];
          }
        }
      }
      assert Total(le) ==> le(s[0], x);
      r
  }

  /** The elements of `s` rearranged so that `le` holds between neighbours. */
  function SortBy<T(!new)>(s: seq<T>, le: (T, T) -> bool): (r: seq<T>)
    ensures |r| == |s|
    ensures multiset(r) == multiset(s)
    ensures Total(le) ==> SortedBy(r, le)
  {
    if s == [] then []
    else
      assert s == [s[0]] + s[1..];
      Insert(s[0], SortBy(s[1..], le), le)
  }

  lemma SortedMembers<T(!new)>(s: seq<T>, le: (T, T) -> bool, x: T)
    ensures x in SortBy(s, le) <==> x in s
  {
    var r := SortBy(s, le);
    assert x in r <==> x in multiset(r);
    assert x in s <==> x in multiset(s);
  }
}
