/** Sorted lists of numbers; SortInts stands for Go's sort.Ints on a list without repetitions. */
module Sorting {

  predicate StrictlyAscending(s: seq<nat>)
  {
    forall i, j | 0 <= i < j < |s| :: s[i] < s[j]
  }

  predicate NoRepeats(s: seq<nat>)
  {
    forall i, j | 0 <= i < j < |s| :: s[i] != s[j]
  }

  /** The sorted form of a list without repetitions. */
  function SortInts(s: seq<nat>): (r: seq<nat>)
    requires NoRepeats(s)
    ensures StrictlyAscending(r) && forall x :: x in r <==> x in s
  {
    if s == [] then []
    else
      assert forall x :: x in s <==> x == s[0] || x in s[1..];
      InsertSorted(s[0], SortInts(s[1..]))
  }

  lemma HeadIsLeast(s: seq<nat>)
    requires StrictlyAscending(s) && s != []
    ensures forall y | y in s[1..] :: s[0] < y
  {
    forall y | y in s[1..]
      ensures s[0] < y
    {
      var k :| 0 <= k < |s| - 1 && s[1..][k] == y;
      assert s[k + 1] == y;
    }
  }

  function InsertSorted(x: nat, s: seq<nat>): (r: seq<nat>)
    requires StrictlyAscending(s) && x !in s
    ensures StrictlyAscending(r) && forall y :: y in r <==> y == x || y in s
  {
    if s == [] || x < s[0] then [x] + s
    else
      assert forall y :: y in s <==> y == s[0] || y in s[1..];
      var t := InsertSorted(x, s[1..]);
      HeadIsLeast(s);
      assert forall y | y in t :: s[0] < y;
      assert forall k | 0 <= k < |t| :: t[k] in t;
      [s[0]] + t
  }

  /** A set has only one strictly ascending listing. */
  lemma {:induction false} AscendingUnique(a: seq<nat>, b: seq<nat>)
    requires StrictlyAscending(a) && StrictlyAscending(b)
    requires forall x :: x in a <==> x in b
    ensures a == b
    decreases |a|
  {
    assert a != [] ==> a[0] in b;
    assert b != [] ==> b[0] in a;
    if a != [] && b != [] {
      HeadIsLeast(a);
      HeadIsLeast(b);
      assert a[0] in b && b[0] in a;
      assert forall x :: x in a <==> x == a[0] || x in a[1..];
      assert forall x :: x in b <==> x == b[0] || x in b[1..];
      AscendingUnique(a[1..], b[1..]);
      assert a == [a[0]] + a[1..] && b == [b[0]] + b[1..];
    }
  }
}
