/** The list surgery every drag handler performs: copy the sibling list
    (`Array.from`), take one element out with `splice(i, 1)`, put it back in
    with `splice(j, 0, x)`. The functions are the meaning of those steps on
    values; the methods do them on an array, as the handlers do. */
module Splice {

  /** Where `splice(i, 0, x)` puts `x` in a list of length `n`: at `i`, or at
      the end when `i` is past it. (Drop indices are never negative.) */
  function InsertIndex(i: nat, n: nat): (j: nat)
    ensures j <= n
    ensures i <= n ==> j == i
    ensures i > n ==> j == n
  {
    if i <= n then i else n
  }

  /** The list left by `splice(i, 1)`. */
  function RemoveAt<T>(s: seq<T>, i: nat): (r: seq<T>)
    requires i < |s|
    ensures |r| == |s| - 1
    ensures forall k :: 0 <= k < i ==> r[k] == s[k]
    ensures forall k :: i <= k < |r| ==> r[k] == s[k + 1]
    ensures multiset(r) + multiset{s[i]} == multiset(s)
  {
    assert s == s[..i] + [s[i]] + s[i + 1..];
    s[..i] + s[i + 1..]
  }

  /** The list left by `splice(i, 0, x)`. */
  function InsertAt<T>(s: seq<T>, i: nat, x: T): (r: seq<T>)
    ensures |r| == |s| + 1
    ensures r[InsertIndex(i, |s|)] == x
    ensures forall k :: 0 <= k < InsertIndex(i, |s|) ==> r[k] == s[k]
    ensures forall k :: InsertIndex(i, |s|) < k < |r| ==> r[k] == s[k - 1]
    ensures multiset(r) == multiset(s) + multiset{x}
  {
    var j := InsertIndex(i, |s|);
    assert s == s[..j] + s[j..];
    s[..j] + [x] + s[j..]
  }

  /** Remove-then-insert inside one list: the element at `from` ends at
      `to` (or last, when `to` is past the end), and the list is a
      permutation of the original. */
  function Move<T>(s: seq<T>, from: nat, to: nat): (r: seq<T>)
    requires from < |s|
    ensures |r| == |s|
    ensures r[InsertIndex(to, |s| - 1)] == s[from]
    ensures multiset(r) == multiset(s)
  {
    InsertAt(RemoveAt(s, from), to, s[from])
  }

  /** Inserting then removing at the same place gives the list back. */
  lemma RemoveInsert<T>(s: seq<T>, i: nat, x: T)
    ensures RemoveAt(InsertAt(s, i, x), InsertIndex(i, |s|)) == s
  {
  }

  /** Removing then re-inserting the removed element gives the list back. */
  lemma InsertRemove<T>(s: seq<T>, i: nat)
    requires i < |s|
    ensures InsertAt(RemoveAt(s, i), i, s[i]) == s
  {
  }

  /** A move is undone by the move back from where the element landed. */
  lemma {:induction false} MoveBack<T>(s: seq<T>, from: nat, to: nat)
    requires from < |s|
    ensures Move(Move(s, from, to), InsertIndex(to, |s| - 1), from) == s
  {
    var rest := RemoveAt(s, from);
    var m := Move(s, from, to);
    var j := InsertIndex(to, |s| - 1);
    RemoveInsert(rest, to, s[from]);
    assert RemoveAt(m, j) == rest;
    assert m[j] == s[from];
    InsertRemove(s, from);
  }

  /** Where every element of a moved list comes from: the elements between
      the two positions shift by one towards the vacated place. */
  lemma MoveAt<T>(s: seq<T>, from: nat, to: nat, k: nat)
    requires from < |s| && k < |s|
    ensures var t := InsertIndex(to, |s| - 1);
      Move(s, from, to)[k] ==
        if k == t then s[from]
        else if from <= k < t then s[k + 1]
        else if t < k <= from then s[k - 1]
        else s[k]
  {
  }

  /** `Array.from(s)` followed by `splice(i, 1)`: the copy is shifted left
      over the removed slot and its last slot is cut off. */
  method SpliceOut<T>(s: seq<T>, i: nat) returns (rest: seq<T>, removed: T)
    requires i < |s|
    ensures removed == s[i]
    ensures rest == RemoveAt(s, i)
  {
    var a := new T[|s|](k requires 0 <= k < |s| => s[k]);
    removed := a[i];
    var k := i;
    while k + 1 < a.Length
      invariant i <= k < a.Length
      invariant forall m :: 0 <= m < i ==> a[m] == s[m]
      invariant forall m :: i <= m < k ==> a[m] == s[m + 1]
      invariant forall m :: k <= m < a.Length ==> a[m] == s[m]
    {
      a[k] := a[k + 1];
      k := k + 1;
    }
    rest := a[..a.Length - 1];
  }

  /** `Array.from(s)` followed by `splice(i, 0, x)`: the copy grows by one
      slot, the tail is shifted right and `x` is written into the gap. */
  method SpliceIn<T>(s: seq<T>, i: nat, x: T) returns (r: seq<T>)
    ensures r == InsertAt(s, i, x)
  {
    var j := InsertIndex(i, |s|);
    var a := new T[|s| + 1](k requires 0 <= k < |s| + 1 => if k < |s| then s[k] else x);
    var k := |s|;
    while k > j
      invariant j <= k <= |s|
      invariant forall m :: 0 <= m < k ==> a[m] == s[m]
      invariant forall m :: k < m <= |s| ==> a[m] == s[m - 1]
    {
      a[k] := a[k - 1];
      k := k - 1;
    }
    a[j] := x;
    r := a[..];
  }

  /** A drag inside one list: `splice` out at `from`, then `splice` the
      removed element back in at `to`. */
  method SpliceMove<T>(s: seq<T>, from: nat, to: nat) returns (r: seq<T>)
    requires from < |s|
    ensures r == Move(s, from, to)
  {
    var rest, moved := SpliceOut(s, from);
    r := SpliceIn(rest, to, moved);
  }
}
