/** The values of one level of the skip list, read from the head sentinel to
    the tail sentinel, and what the two level operations do to them: the
    forward scan (LinkedList::search) and the guarded splice
    (LinkedList::insert) at the node the scan lands on. */
module Levels {

  /** Every value is smaller than the one after it. */
  ghost predicate StrictlyIncreasing(s: seq<int>)
  {
    forall a, b :: 0 <= a < b < |s| ==> s[a] < s[b]
  }

  /** The index the forward scan stops at when it starts at index k: it steps
      on while the next value is at most x. It never moves backward, every
      value it stepped onto is at most x, and it stops at the end of the level
      or in front of a value greater than x. */
  function ScanIndex(s: seq<int>, k: nat, x: int): (r: nat)
    requires k < |s|
    ensures k <= r < |s|
    ensures forall t :: k < t <= r ==> s[t] <= x
    ensures r + 1 == |s| || x < s[r + 1]
    decreases |s| - k
  {
    if k + 1 < |s| && s[k + 1] <= x then ScanIndex(s, k + 1, x) else k
  }

  /** The values after a node holding x is spliced in behind index k. */
  function InsertAt(s: seq<int>, k: nat, x: int): seq<int>
    requires k < |s|
  {
    s[..k + 1] + [x] + s[k + 1..]
  }

  /** What one level's values become when x is spliced in behind the node
      that the scan from the head lands on. The splice is refused, leaving
      the level as it was, unless the landing value is below x and there is a
      next value, at least x. */
  function LevelInsert(s: seq<int>, x: int): seq<int>
  {
    if |s| == 0 then s
    else
      var j := ScanIndex(s, 0, x);
      if s[j] < x && j + 1 < |s| && x <= s[j + 1] then InsertAt(s, j, x) else s
  }

  /** On a strictly increasing level, a scan started at a value at most x
      stops at the last value at most x: the values at or after the start that
      are at most x are exactly those up to the result, and x is in the level
      exactly when the result holds x. */
  lemma ScanFindsPredecessor(s: seq<int>, k: nat, x: int)
    requires StrictlyIncreasing(s) && k < |s| && s[k] <= x
    ensures var j := ScanIndex(s, k, x);
      s[j] <= x &&
      (forall t :: k <= t < |s| ==> (s[t] <= x <==> t <= j)) &&
      (x in s <==> s[j] == x)
  {
  }

  /** Started from the head, the scan lands on the greatest value at most x,
      or on the head when no value is at most x. */
  lemma ScanFromHead(s: seq<int>, x: int)
    requires StrictlyIncreasing(s) && |s| > 0
    ensures var j := ScanIndex(s, 0, x);
      (s[0] <= x ==> s[j] <= x && forall t :: 0 <= t < |s| && s[t] <= x ==> s[t] <= s[j]) &&
      (x < s[0] ==> j == 0)
  {
    if s[0] <= x {
      ScanFindsPredecessor(s, 0, x);
    }
  }

  /** Splicing x between two neighbours that bracket it strictly keeps the
      level strictly increasing. */
  lemma InsertAtIncreasing(s: seq<int>, k: nat, x: int)
    requires StrictlyIncreasing(s) && k + 1 < |s| && s[k] < x < s[k + 1]
    ensures StrictlyIncreasing(InsertAt(s, k, x))
  {
    var r := InsertAt(s, k, x);
    assert forall t :: 0 <= t <= k ==> r[t] == s[t];
    assert r[k + 1] == x;
    assert forall t :: k + 1 < t < |r| ==> r[t] == s[t - 1];
    forall a, b | 0 <= a < b < |r|
      ensures r[a] < r[b]
    {
      if b <= k {
      } else if b == k + 1 {
        assert r[a] == s[a] <= s[k];
      } else if a > k + 1 {
        assert r[a] == s[a - 1] && r[b] == s[b - 1];
      } else if a == k + 1 {
        assert s[k + 1] <= s[b - 1];
      } else {
        assert s[a] < s[b - 1];
      }
    }
  }

  /** The splice is refused, and the level left alone, when x is already in
      the level or lies outside its two ends. */
  lemma LevelInsertRefused(s: seq<int>, x: int)
    requires StrictlyIncreasing(s) && |s| >= 2
    requires x in s || x < s[0] || s[|s| - 1] < x
    ensures LevelInsert(s, x) == s
  {
    if s[0] <= x {
      ScanFindsPredecessor(s, 0, x);
    }
  }

  /** When x lies strictly between the two ends and is not in the level, the
      scan lands on the last value below x, the next value is above x, and the
      splice goes in between them. */
  lemma LevelInsertAdds(s: seq<int>, x: int)
    requires StrictlyIncreasing(s) && |s| >= 2
    requires s[0] < x < s[|s| - 1] && x !in s
    ensures var j := ScanIndex(s, 0, x);
      j + 1 < |s| && s[j] < x < s[j + 1] && LevelInsert(s, x) == InsertAt(s, j, x)
  {
    ScanFindsPredecessor(s, 0, x);
  }

  /** The values of InsertAt are those of the level plus the new one. */
  lemma InsertAtMembers(s: seq<int>, k: nat, x: int)
    requires k < |s|
    ensures forall y :: y in InsertAt(s, k, x) <==> (y in s || y == x)
  {
    var r := InsertAt(s, k, x);
    assert r == s[..k + 1] + [x] + s[k + 1..];
    assert s == s[..k + 1] + s[k + 1..];
  }

  /** The level insert on a level with its two sentinels: the result stays
      strictly increasing with the same two ends; it leaves the level alone
      exactly when x is already there or lies outside the sentinels; and its
      values are the old ones plus x when x lies strictly between them. */
  lemma LevelInsertSpec(s: seq<int>, x: int)
    requires StrictlyIncreasing(s) && |s| >= 2
    ensures var r := LevelInsert(s, x);
      StrictlyIncreasing(r) && |r| >= 2 && r[0] == s[0] && r[|r| - 1] == s[|s| - 1] &&
      (r == s <==> (x in s || x < s[0] || s[|s| - 1] < x)) &&
      (forall y :: y in r <==> (y in s || (y == x && s[0] < x < s[|s| - 1])))
  {
    if x in s || x < s[0] || s[|s| - 1] < x {
      LevelInsertRefused(s, x);
    } else {
      LevelInsertAdds(s, x);
      var j := ScanIndex(s, 0, x);
      InsertAtIncreasing(s, j, x);
      InsertAtMembers(s, j, x);
      assert |InsertAt(s, j, x)| == |s| + 1;
    }
  }

  /** The splice condition of LinkedList::insert at the node the scan from
      the head lands on holds exactly when x lies strictly between the two
      ends of the level and is not in it yet. */
  lemma LevelInsertAccepts(s: seq<int>, x: int)
    requires StrictlyIncreasing(s) && |s| >= 2
    ensures var j := ScanIndex(s, 0, x);
      (j + 1 < |s| && s[j] < x <= s[j + 1]) <==> (s[0] < x < s[|s| - 1] && x !in s)
  {
    var j := ScanIndex(s, 0, x);
    LevelInsertSpec(s, x);
    if j + 1 < |s| && s[j] < x <= s[j + 1] {
      assert |LevelInsert(s, x)| == |s| + 1;
    }
  }
}
