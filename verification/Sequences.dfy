/** Concatenating a list of parts. */
module Sequences {

  function Concat<T>(parts: seq<seq<T>>): seq<T> {
    if parts == [] then [] else Concat(parts[..|parts| - 1]) + parts[|parts| - 1]
  }

  lemma ConcatNext<T>(parts: seq<seq<T>>, i: nat)
    requires i < |parts|
    ensures Concat(parts[..i + 1]) == Concat(parts[..i]) + parts[i]
  {
    assert parts[..i + 1][..i] == parts[..i];
  }

  /** Part i occupies the concatenation from the length of the parts before it. */
  lemma {:induction false} ConcatAt<T>(parts: seq<seq<T>>, i: nat)
    requires i < |parts|
    ensures |Concat(parts[..i])| + |parts[i]| <= |Concat(parts)|
    ensures forall k :: 0 <= k < |parts[i]| ==> Concat(parts)[|Concat(parts[..i])| + k] == parts[i][k]
  {
    var n := |parts| - 1;
    if i < n {
      ConcatAt(parts[..n], i);
      assert parts[..n][..i] == parts[..i];
    }
  }

  lemma {:induction false} ConcatAll<T(!new)>(parts: seq<seq<T>>, good: T -> bool)
    requires forall i, k :: 0 <= i < |parts| && 0 <= k < |parts[i]| ==> good(parts[i][k])
    ensures forall k :: 0 <= k < |Concat(parts)| ==> good(Concat(parts)[k])
  {
    if parts != [] {
      var init := parts[..|parts| - 1];
      assert forall i, k :: 0 <= i < |init| && 0 <= k < |init[i]| ==> init[i][k] == parts[i][k];
      ConcatAll(init, good);
    }
  }

  lemma {:induction false} ConcatAppend<T>(x: seq<seq<T>>, y: seq<seq<T>>)
    ensures Concat(x + y) == Concat(x) + Concat(y)
  {
    if y == [] {
      assert x + y == x;
    } else {
      var n := |y| - 1;
      assert (x + y)[..|x + y| - 1] == x + y[..n];
      ConcatAppend(x, y[..n]);
    }
  }
}
