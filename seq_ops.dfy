/** The meaning of each editing operation of the collection, stated on the
    sequence of live elements.  The class methods are proved against these. */
module SeqOps {

  /** `s` with `x` placed at position `i`; the elements from `i` on move one
      place to the right. */
  function Inserted<T>(s: seq<T>, i: nat, x: T): (r: seq<T>)
    requires i <= |s|
    ensures |r| == |s| + 1 && r[i] == x
    ensures forall j :: 0 <= j < i ==> r[j] == s[j]
    ensures forall j :: i < j < |r| ==> r[j] == s[j - 1]
  {
    s[..i] + [x] + s[i..]
  }

  /** `s` without its element at position `i`; the elements after it move one
      place to the left. */
  function Removed<T>(s: seq<T>, i: nat): (r: seq<T>)
    requires i < |s|
    ensures |r| == |s| - 1
    ensures forall j :: 0 <= j < i ==> r[j] == s[j]
    ensures forall j :: i <= j < |r| ==> r[j] == s[j + 1]
  {
    s[..i] + s[i + 1..]
  }

  /** `s` with the elements at positions `a` and `b` exchanged. */
  function Swapped<T>(s: seq<T>, a: nat, b: nat): (r: seq<T>)
    requires a < |s| && b < |s|
    ensures |r| == |s| && r[a] == s[b] && r[b] == s[a]
    ensures forall j :: 0 <= j < |s| && j != a && j != b ==> r[j] == s[j]
  {
    s[a := s[b]][b := s[a]]
  }

  /** Removing what was just inserted at the same index gives back the
      original contents. */
  lemma RemoveAfterInsert<T>(s: seq<T>, i: nat, x: T)
    requires i <= |s|
    ensures Removed(Inserted(s, i, x), i) == s
  {
  }

  /** Re-inserting a removed element at its old index gives back the
      original contents. */
  lemma InsertAfterRemove<T>(s: seq<T>, i: nat)
    requires i < |s|
    ensures Inserted(Removed(s, i), i, s[i]) == s
  {
  }

  /** Exchanging the same two positions twice is the identity. */
  lemma SwapTwice<T>(s: seq<T>, a: nat, b: nat)
    requires a < |s| && b < |s|
    ensures Swapped(Swapped(s, a, b), a, b) == s
  {
  }

  /** Exchanging two positions only reorders the elements. */
  lemma SwapPermutes<T>(s: seq<T>, a: nat, b: nat)
    requires a < |s| && b < |s|
    ensures multiset(Swapped(s, a, b)) == multiset(s)
  {
  }

  /** Enumerable.Range(start, count): the `count` consecutive integers
      starting at `start`. */
  function Range(start: int, count: nat): (r: seq<int>)
    ensures |r| == count
    ensures forall j :: 0 <= j < count ==> r[j] == start + j
  {
    seq(count, j => start + j)
  }
}
