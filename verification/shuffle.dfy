/** The shuffle order: a permutation of the playlist indices [0, n), drawn the
    way `rebuildShuffleOrder` draws it. The source repeatedly removes a random
    element from the list of remaining indices; the random choices are an input
    sequence, the k-th choice lying in [0, n - k) as `Random.nextInt` promises. */
module Shuffle {
  import JavaLang

  /** The elements at positions `i` and `j` differ. */
  predicate Differ(s: seq<int>, i: int, j: int)
    requires 0 <= i < |s| && 0 <= j < |s|
  {
    s[i] != s[j]
  }

  /** No element occurs twice. The pairs are compared through `Differ`, so the
      fact is used only where a proof names the two positions. */
  predicate Distinct(s: seq<int>) {
    forall i, j :: 0 <= i < j < |s| ==> Differ(s, i, j)
  }

  /** Two different positions of a distinct sequence hold different elements. */
  lemma DistinctAt(s: seq<int>, i: int, j: int)
    requires Distinct(s) && 0 <= i < |s| && 0 <= j < |s| && i != j
    ensures s[i] != s[j]
  {
    if i < j {
      assert Differ(s, i, j);
    } else {
      assert Differ(s, j, i);
    }
  }

  /** `s` lists every index of [0, n) exactly once. */
  predicate IsPermutation(s: seq<int>, n: nat) {
    |s| == n && Distinct(s) && forall i :: 0 <= i < |s| ==> 0 <= s[i] < n
  }

  /** A sequence of `nextInt(remaining)` answers for a list of `n` indices. */
  predicate ValidPicks(picks: seq<int>, n: nat) {
    |picks| == n && forall k :: 0 <= k < n ==> 0 <= picks[k] < n - k
  }

  /** The list 0, 1, ..., n-1 the source starts from. */
  function Range(n: nat): (s: seq<int>)
    ensures |s| == n
    ensures forall i :: 0 <= i < n ==> s[i] == i
  {
    seq(n, i => i)
  }

  /** `List.remove(i)`: the list without its i-th element. */
  function RemoveAt(s: seq<int>, i: nat): (r: seq<int>)
    requires i < |s|
    ensures |r| == |s| - 1
    ensures forall x :: x in s <==> x == s[i] || x in r
    ensures Distinct(s) ==> Distinct(r) && s[i] !in r
  {
    var r := s[..i] + s[i + 1..];
    RemovedPositions(s, i, r);
    assert Distinct(s) ==> Distinct(r) && s[i] !in r by {
      if Distinct(s) {
        RemoveKeepsDistinct(s, i, r);
      }
    }
    r
  }

  /** Where the elements of `s` sit once the i-th is removed. */
  lemma RemovedPositions(s: seq<int>, i: nat, r: seq<int>)
    requires i < |s| && r == s[..i] + s[i + 1..]
    ensures |r| == |s| - 1
    ensures forall j :: 0 <= j < |r| ==> r[j] == s[if j < i then j else j + 1]
    ensures forall x :: x in s <==> x == s[i] || x in r
  {
    assert forall j :: 0 <= j < |s| && j != i ==> s[j] == r[if j < i then j else j - 1];
  }

  lemma RemoveKeepsDistinct(s: seq<int>, i: nat, r: seq<int>)
    requires i < |s| && Distinct(s)
    requires |r| == |s| - 1 && forall j :: 0 <= j < |r| ==> r[j] == s[if j < i then j else j + 1]
    ensures Distinct(r) && s[i] !in r
  {
    forall a, b | 0 <= a < b < |r|
      ensures Differ(r, a, b)
    {
      DistinctAt(s, if a < i then a else a + 1, if b < i then b else b + 1);
    }
    forall a | 0 <= a < |r|
      ensures r[a] != s[i]
    {
      DistinctAt(s, if a < i then a else a + 1, i);
    }
  }

  /** Moves the picked elements of `remaining`, one pick at a time, to the order. */
  function Draw(remaining: seq<int>, picks: seq<int>): (order: seq<int>)
    requires ValidPicks(picks, |remaining|)
    ensures |order| == |remaining|
    ensures forall x :: x in order <==> x in remaining
    ensures Distinct(remaining) ==> Distinct(order)
    decreases |remaining|
  {
    if |remaining| == 0 then []
    else
      var rest := RemoveAt(remaining, picks[0]);
      assert ValidPicks(picks[1..], |rest|) by {
        forall k | 0 <= k < |rest|
          ensures 0 <= picks[1..][k] < |rest| - k
        {
          assert picks[1..][k] == picks[k + 1];
        }
      }
      var tail := Draw(rest, picks[1..]);
      var order := [remaining[picks[0]]] + tail;
      assert Distinct(remaining) ==> Distinct(order) by {
        if Distinct(remaining) {
          forall a, b | 0 <= a < b < |order|
            ensures Differ(order, a, b)
          {
            if a == 0 {
              assert order[b] == tail[b - 1];
            } else {
              DistinctAt(tail, a - 1, b - 1);
            }
          }
        }
      }
      order
  }

  /** The order `rebuildShuffleOrder` produces for a playlist of `n` tracks. */
  function Shuffled(n: nat, picks: seq<int>): (order: seq<int>)
    requires ValidPicks(picks, n)
    ensures IsPermutation(order, n)
  {
    var order := Draw(Range(n), picks);
    assert forall i :: 0 <= i < n ==> order[i] in Range(n);
    order
  }

  /** Every arrangement of the remaining indices is drawn by some sequence of
      picks: the shuffle can produce any order. */
  function PicksFor(remaining: seq<int>, target: seq<int>): (picks: seq<int>)
    requires Distinct(remaining) && Distinct(target) && |target| == |remaining|
    requires forall x :: x in target <==> x in remaining
    ensures ValidPicks(picks, |remaining|)
    ensures Draw(remaining, picks) == target
    decreases |remaining|
  {
    if |remaining| == 0 then []
    else
      var first := target[0];
      assert first in target;
      assert first in remaining;
      var i := JavaLang.IndexOf(remaining, target[0]);
      var rest := RemoveAt(remaining, i);
      RestMatches(remaining, target, i, rest);
      var tail := PicksFor(rest, target[1..]);
      DrawFirst(remaining, i, tail);
      assert Draw(remaining, [i] + tail) == [target[0]] + target[1..];
      assert [target[0]] + target[1..] == target;
      [i] + tail
  }

  /** Drawing with a first pick `i` takes the i-th element, then draws the
      rest from what remains. */
  lemma DrawFirst(remaining: seq<int>, i: int, tail: seq<int>)
    requires 0 <= i < |remaining| && ValidPicks(tail, |remaining| - 1)
    ensures ValidPicks([i] + tail, |remaining|)
    ensures Draw(remaining, [i] + tail) == [remaining[i]] + Draw(RemoveAt(remaining, i), tail)
  {
    var picks := [i] + tail;
    assert picks[1..] == tail;
    assert forall k :: 0 < k < |picks| ==> picks[k] == tail[k - 1];
  }

  /** Once the first element of the target is removed from the remaining
      indices, the rest of the target is an arrangement of what remains. */
  lemma RestMatches(remaining: seq<int>, target: seq<int>, i: int, rest: seq<int>)
    requires Distinct(remaining) && Distinct(target) && |target| == |remaining| > 0
    requires forall x :: x in target <==> x in remaining
    requires i == JavaLang.IndexOf(remaining, target[0]) && rest == RemoveAt(remaining, i)
    ensures Distinct(target[1..]) && |target[1..]| == |rest|
    ensures forall x :: x in target[1..] <==> x in rest
  {
    forall a, b | 0 <= a < b < |target| - 1
      ensures Differ(target[1..], a, b)
    {
      DistinctAt(target, a + 1, b + 1);
    }
    forall a | 0 <= a < |target| - 1
      ensures target[1..][a] != target[0]
    {
      DistinctAt(target, 0, a + 1);
    }
    forall x
      ensures x in target[1..] <==> x in rest
    {
      assert x in target <==> x == target[0] || x in target[1..];
    }
  }

  /** Each permutation of [0, n) is the shuffle order of some random choices. */
  lemma EveryOrderIsReachable(order: seq<int>, n: nat)
    requires IsPermutation(order, n)
    ensures exists picks :: ValidPicks(picks, n) && Shuffled(n, picks) == order
  {
    PermutationCovers(order, n);
    var range := Range(n);
    forall x
      ensures x in order <==> x in range
    {
      if 0 <= x < n {
        assert range[x] == x;
      }
    }
    var picks := PicksFor(range, order);
    assert Shuffled(n, picks) == order;
  }

  /** In a permutation, the position of an element is the one it sits at. */
  lemma PositionInPermutation(order: seq<int>, n: nat, j: int)
    requires IsPermutation(order, n) && 0 <= j < n
    ensures JavaLang.IndexOf(order, order[j]) == j
  {
    var k := JavaLang.IndexOf(order, order[j]);
    if k != j {
      DistinctAt(order, k, j);
    }
  }

  /** A permutation of [0, n) contains every index of [0, n): the last element is
      swapped for the largest index in the front, which is then a permutation of
      [0, n - 1). */
  lemma {:induction false} PermutationCovers(order: seq<int>, n: nat)
    requires IsPermutation(order, n)
    ensures forall i :: 0 <= i < n ==> i in order
    decreases n
  {
    if n > 0 {
      var last := order[n - 1];
      var front := seq(n - 1, j requires 0 <= j < n - 1 => if order[j] == n - 1 then last else order[j]);
      assert IsPermutation(front, n - 1) by {
        forall a, b | 0 <= a < b < n - 1
          ensures Differ(front, a, b)
        {
          DistinctAt(order, a, b);
          DistinctAt(order, a, n - 1);
          DistinctAt(order, b, n - 1);
        }
        forall j | 0 <= j < n - 1
          ensures 0 <= front[j] < n - 1
        {
          DistinctAt(order, j, n - 1);
        }
      }
      PermutationCovers(front, n - 1);
      forall i | 0 <= i < n
        ensures i in order
      {
        if i == last {
        } else if i < n - 1 {
          assert i in front;
          var j :| 0 <= j < n - 1 && front[j] == i;
          assert order[j] == i;
        } else {
          assert last in front;
          var j :| 0 <= j < n - 1 && front[j] == last;
          DistinctAt(order, j, n - 1);
        }
      }
    }
  }

  /** The position after `x - 1` on a ring of `n` positions: `x` itself, or 0
      when `x` is one past the end. */
  function Wrap(x: int, n: nat): (r: int)
    requires 0 < x <= n
    ensures 0 <= r < n
  {
    if x == n then 0 else x
  }

  /** `Wrap` is Java's `x % n` on the arguments it takes, so the source's
      `(i + 1) % size` steps once round the ring. */
  lemma WrapIsRemainder(x: int, n: nat)
    requires 0 < x <= n
    ensures Wrap(x, n) == JavaLang.Rem(x, n)
  {
    var q := JavaLang.Div(x, n);
    if q >= 2 || q <= -1 {
      assert false;
    }
  }

  /** The source's `(x - 1 + n) % n` steps once back round the ring. */
  lemma BackIsRemainder(x: int, n: nat)
    requires 0 <= x < n
    ensures JavaLang.Rem(x - 1 + n, n) == if x == 0 then n - 1 else x - 1
  {
  }

  /** The position `k` steps after `pos` on a ring of `n` positions. */
  function Cycle(pos: int, k: nat, n: nat): (c: int)
    requires 0 <= pos < n
    ensures 0 <= c < n
    ensures k <= n ==> c == if pos + k < n then pos + k else pos + k - n
  {
    if k == 0 then pos else Wrap(Cycle(pos, k - 1, n) + 1, n)
  }

  /** The element `k` places after position `pos`, wrapping at the end. */
  function After(order: seq<int>, pos: int, k: nat): (x: int)
    requires 0 <= pos < |order|
    ensures x in order
  {
    order[Cycle(pos, k, |order|)]
  }

  /** Fewer than a full round of steps never returns to the start. */
  lemma AfterLeavesStart(order: seq<int>, n: nat, pos: int, k: nat)
    requires IsPermutation(order, n) && 0 <= pos < n && 0 < k < n
    ensures After(order, pos, k) != order[pos]
  {
    DistinctAt(order, Cycle(pos, k, n), pos);
  }

  /** A full round of steps visits every index. */
  lemma AfterCovers(order: seq<int>, n: nat, pos: int, i: int)
    requires IsPermutation(order, n) && 0 <= pos < n && 0 <= i < n
    ensures exists k :: 1 <= k <= n && After(order, pos, k) == i
  {
    PermutationCovers(order, n);
    assert i in order;
    var j :| 0 <= j < n && order[j] == i;
    var k := if j > pos then j - pos else j - pos + n;
    assert Cycle(pos, k, n) == j;
    assert After(order, pos, k) == i;
  }

  /** One step of the source's successor from `k` steps gives `k + 1` steps. */
  lemma AfterStep(order: seq<int>, n: nat, pos: int, k: nat)
    requires IsPermutation(order, n) && 0 <= pos < n
    ensures JavaLang.IndexOf(order, After(order, pos, k)) == Cycle(pos, k, n)
    ensures order[Wrap(Cycle(pos, k, n) + 1, n)] == After(order, pos, k + 1)
  {
    PositionInPermutation(order, n, Cycle(pos, k, n));
  }
}
