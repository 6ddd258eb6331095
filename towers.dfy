/** The skip list seen as its levels' values, bottom level first, and what
    SkipList::insert does to them: the tower height drawn from coin flips, the
    levels grown on top, and the value spliced into the bottom levels. */
module Towers {
  import opened Levels

  /** One coin flip, a result of rand() % 2; 1 lets the tower grow. */
  type Flip = f: int | 0 <= f <= 1

  /** The height of a new tower: 1 plus the number of 1-flips before the
      first 0-flip. */
  function TowerHeight(flips: seq<Flip>): (i: nat)
    requires 0 in flips
    ensures 1 <= i <= |flips|
    ensures flips[i - 1] == 0
    ensures forall t :: 0 <= t < i - 1 ==> flips[t] == 1
  {
    if flips[0] == 0 then 1
    else
      assert flips == [flips[0]] + flips[1..];
      1 + TowerHeight(flips[1..])
  }

  /** A level with the two sentinels lo and hi at its ends and strictly
      increasing values in between. */
  ghost predicate SentinelLevel(s: seq<int>, lo: int, hi: int)
  {
    |s| >= 2 && s[0] == lo && s[|s| - 1] == hi && StrictlyIncreasing(s)
  }

  /** Every level is a sentinel level. */
  ghost predicate Ordered(L: seq<seq<int>>, lo: int, hi: int)
  {
    forall k {:trigger SentinelLevel(L[k], lo, hi)} :: 0 <= k < |L| ==> SentinelLevel(L[k], lo, hi)
  }

  /** Every value of level k is also in level k - 1. */
  ghost predicate Below(L: seq<seq<int>>, k: nat)
    requires 0 < k < |L|
  {
    forall y :: y in L[k] ==> y in L[k - 1]
  }

  /** Every level above the bottom is below the one under it, so each
      value's levels form a prefix from the bottom. */
  ghost predicate Towered(L: seq<seq<int>>)
  {
    forall k :: 0 < k < |L| ==> Below(L, k)
  }

  /** The levels after the growth step: when the tower height i exceeds the
      number of levels, each of the i iterations puts a level with only the
      two sentinels on top, so i levels are added (not i - |L|). */
  function Grown(L: seq<seq<int>>, i: nat, lo: int, hi: int): seq<seq<int>>
  {
    if i > |L| then L + seq(i, _ => [lo, hi]) else L
  }

  /** The levels after the bottom i levels of the grown structure have each
      had x spliced in where the scan from their head lands. */
  function InsertTower(L: seq<seq<int>>, x: int, i: nat, lo: int, hi: int): seq<seq<int>>
  {
    var G := Grown(L, i, lo, hi);
    seq(|G|, k requires 0 <= k < |G| => if k < i then LevelInsert(G[k], x) else G[k])
  }

  /** The duplicate test: the search lands on a node holding x. The search
      scans only the top level, because no node has a down link. */
  predicate FoundAtTop(L: seq<seq<int>>, x: int)
  {
    |L| > 0 && |L[|L| - 1]| > 0 && L[|L| - 1][ScanIndex(L[|L| - 1], 0, x)] == x
  }

  /** What SkipList::insert does to the levels' values, given the tower height. */
  function SkipInsert(L: seq<seq<int>>, x: int, i: nat, lo: int, hi: int): seq<seq<int>>
  {
    if FoundAtTop(L, x) then L else InsertTower(L, x, i, lo, hi)
  }

  /** A value in some level of a towered structure is in the bottom level. */
  lemma {:induction false} InBottom(L: seq<seq<int>>, k: nat, y: int)
    requires Towered(L) && k < |L| && y in L[k]
    ensures y in L[0]
    decreases k
  {
    if k > 0 {
      assert Below(L, k);
      InBottom(L, k - 1, y);
    }
  }

  /** On ordered levels the duplicate test succeeds exactly when x is in the
      top level. */
  lemma FoundAtTopIff(L: seq<seq<int>>, x: int, lo: int, hi: int)
    requires Ordered(L, lo, hi) && |L| > 0
    ensures FoundAtTop(L, x) <==> x in L[|L| - 1]
  {
    var top := L[|L| - 1];
    assert SentinelLevel(top, lo, hi);
    if top[0] <= x {
      ScanFindsPredecessor(top, 0, x);
    } else {
      forall t | 0 <= t < |top| ensures top[t] != x {
        if t > 0 { assert top[0] < top[t]; }
      }
    }
  }

  /** Level k of the grown structure: an old level, or a sentinel-only one. */
  function GrownLevel(L: seq<seq<int>>, k: nat, lo: int, hi: int): seq<int>
  {
    if k < |L| then L[k] else [lo, hi]
  }

  /** The growth step keeps the old levels and puts i sentinel-only levels
      above them when i exceeds the number of levels. */
  lemma GrownAt(L: seq<seq<int>>, i: nat, lo: int, hi: int)
    ensures var G := Grown(L, i, lo, hi);
      |G| == (if i > |L| then |L| + i else |L|) &&
      forall k :: 0 <= k < |G| ==> G[k] == GrownLevel(L, k, lo, hi)
  {
  }

  /** A level of the grown structure is a sentinel level, and each of its
      values is in the level below. */
  lemma GrownLevelShape(L: seq<seq<int>>, lo: int, hi: int, k: nat)
    requires lo < hi && Ordered(L, lo, hi) && Towered(L) && |L| > 0
    ensures SentinelLevel(GrownLevel(L, k, lo, hi), lo, hi)
    ensures k > 0 ==> forall y :: y in GrownLevel(L, k, lo, hi) ==> y in GrownLevel(L, k - 1, lo, hi)
  {
    assert StrictlyIncreasing([lo, hi]);
    if k > 0 {
      var s := GrownLevel(L, k - 1, lo, hi);
      assert SentinelLevel(s, lo, hi);
      assert s[0] == lo && s[|s| - 1] == hi;
      if k < |L| {
        assert Below(L, k);
      }
    }
  }

  /** Level k after the tower insert: a sentinel level whose values are
      those of the grown level, plus x when k is below i and x lies strictly
      between the sentinels; from i up it is the grown level itself. */
  lemma InsertTowerLevel(L: seq<seq<int>>, x: int, i: nat, lo: int, hi: int, k: nat)
    requires lo < hi && Ordered(L, lo, hi) && Towered(L) && |L| > 0
    requires k < |Grown(L, i, lo, hi)|
    ensures var R := InsertTower(L, x, i, lo, hi);
      |R| == |Grown(L, i, lo, hi)| &&
      SentinelLevel(R[k], lo, hi) &&
      (k >= i ==> R[k] == GrownLevel(L, k, lo, hi)) &&
      (forall y :: y in R[k] <==> (y in GrownLevel(L, k, lo, hi) || (k < i && y == x && lo < x < hi)))
  {
    GrownAt(L, i, lo, hi);
    GrownLevelShape(L, lo, hi, k);
    LevelInsertSpec(GrownLevel(L, k, lo, hi), x);
  }

  /** SkipList::insert keeps every level strictly increasing between the two
      sentinels, and keeps each value's levels a prefix from the bottom. */
  lemma SkipInsertKeepsShape(L: seq<seq<int>>, x: int, i: nat, lo: int, hi: int)
    requires lo < hi && Ordered(L, lo, hi) && Towered(L) && |L| > 0
    ensures Ordered(SkipInsert(L, x, i, lo, hi), lo, hi)
    ensures Towered(SkipInsert(L, x, i, lo, hi))
  {
    if !FoundAtTop(L, x) {
      InsertTowerShape(L, x, i, lo, hi);
    }
  }

  /** The tower insert keeps the levels ordered and towered. */
  lemma InsertTowerShape(L: seq<seq<int>>, x: int, i: nat, lo: int, hi: int)
    requires lo < hi && Ordered(L, lo, hi) && Towered(L) && |L| > 0
    ensures Ordered(InsertTower(L, x, i, lo, hi), lo, hi)
    ensures Towered(InsertTower(L, x, i, lo, hi))
  {
    var R := InsertTower(L, x, i, lo, hi);
    GrownAt(L, i, lo, hi);
    forall k | 0 <= k < |R| ensures SentinelLevel(R[k], lo, hi) {
      InsertTowerLevel(L, x, i, lo, hi, k);
    }
    forall k | 0 < k < |R| ensures Below(R, k) {
      forall y | y in R[k] ensures y in R[k - 1] {
        InsertTowerLink(L, x, i, lo, hi, k, y);
      }
    }
  }

  /** Whether y is in level k and in level k - 1 after the tower insert,
      and whether it is in the two grown levels under them. */
  lemma InsertTowerPair(L: seq<seq<int>>, x: int, i: nat, lo: int, hi: int, k: nat, y: int)
    requires lo < hi && Ordered(L, lo, hi) && Towered(L) && |L| > 0
    requires 0 < k < |Grown(L, i, lo, hi)|
    ensures y in InsertTower(L, x, i, lo, hi)[k] <==> (y in GrownLevel(L, k, lo, hi) || (k < i && y == x && lo < x < hi))
    ensures y in InsertTower(L, x, i, lo, hi)[k - 1] <==> (y in GrownLevel(L, k - 1, lo, hi) || (k - 1 < i && y == x && lo < x < hi))
    ensures y in GrownLevel(L, k, lo, hi) ==> y in GrownLevel(L, k - 1, lo, hi)
  {
    InsertTowerLevel(L, x, i, lo, hi, k);
    InsertTowerLevel(L, x, i, lo, hi, k - 1);
    GrownLevelShape(L, lo, hi, k);
  }

  /** A value of level k > 0 after the tower insert is in level k - 1. */
  lemma InsertTowerLink(L: seq<seq<int>>, x: int, i: nat, lo: int, hi: int, k: nat, y: int)
    requires lo < hi && Ordered(L, lo, hi) && Towered(L) && |L| > 0
    requires 0 < k < |Grown(L, i, lo, hi)| && y in InsertTower(L, x, i, lo, hi)[k]
    ensures y in InsertTower(L, x, i, lo, hi)[k - 1]
  {
    InsertTowerPair(L, x, i, lo, hi, k, y);
  }

  /** The level count and the levels SkipList::insert leaves alone: a value
      in the top level changes nothing; otherwise there are |L| + i levels
      when i exceeds |L| and |L| levels if not, the levels from i up are the
      grown levels, and a level below i holds its old values plus x when x
      lies strictly between the sentinels. */
  lemma SkipInsertLevels(L: seq<seq<int>>, x: int, i: nat, lo: int, hi: int)
    requires lo < hi && Ordered(L, lo, hi) && Towered(L) && |L| > 0
    ensures var R := SkipInsert(L, x, i, lo, hi);
      (x in L[|L| - 1] ==> R == L) &&
      (x !in L[|L| - 1] ==>
        |R| == (if i > |L| then |L| + i else |L|) &&
        (forall k :: i <= k < |R| ==> R[k] == GrownLevel(L, k, lo, hi)) &&
        (forall k, y :: 0 <= k < i && k < |R| ==>
          (y in R[k] <==> (y in GrownLevel(L, k, lo, hi) || (y == x && lo < x < hi)))))
  {
    FoundAtTopIff(L, x, lo, hi);
    if x !in L[|L| - 1] {
      var R := InsertTower(L, x, i, lo, hi);
      GrownAt(L, i, lo, hi);
      forall k | 0 <= k < |R|
        ensures R[k] == GrownLevel(L, k, lo, hi) || k < i
        ensures forall y :: y in R[k] <==> (y in GrownLevel(L, k, lo, hi) || (k < i && y == x && lo < x < hi))
      {
        InsertTowerLevel(L, x, i, lo, hi, k);
      }
    }
  }

  /** A value not yet anywhere, strictly between the sentinels, ends up in
      exactly the bottom i levels. */
  lemma SkipInsertFreshTower(L: seq<seq<int>>, x: int, i: nat, lo: int, hi: int)
    requires lo < hi && Ordered(L, lo, hi) && Towered(L) && |L| > 0
    requires lo < x < hi && x !in L[0]
    ensures var R := SkipInsert(L, x, i, lo, hi);
      forall k :: 0 <= k < |R| ==> (x in R[k] <==> k < i)
  {
    if x in L[|L| - 1] {
      InBottom(L, |L| - 1, x);
    }
    SkipInsertLevels(L, x, i, lo, hi);
    var R := SkipInsert(L, x, i, lo, hi);
    forall k | 0 <= k < |R| ensures x in R[k] <==> k < i {
      if k < |L| && x in L[k] {
        InBottom(L, k, x);
      }
    }
  }

  /** The bottom level after SkipList::insert, for a tower of height at least
      one: x is there exactly when it was there before or lies strictly between
      the sentinels, and no other value comes or goes. */
  lemma SkipInsertBottom(L: seq<seq<int>>, x: int, i: nat, lo: int, hi: int)
    requires lo < hi && Ordered(L, lo, hi) && Towered(L) && |L| > 0 && i >= 1
    ensures var R := SkipInsert(L, x, i, lo, hi);
      |R| > 0 &&
      (x in R[0] <==> (x in L[0] || lo < x < hi)) &&
      (forall y :: y != x ==> (y in R[0] <==> y in L[0]))
  {
    SkipInsertLevels(L, x, i, lo, hi);
    if x in L[|L| - 1] {
      InBottom(L, |L| - 1, x);
      assert SentinelLevel(L[0], lo, hi);
      assert L[0][0] == lo && L[0][|L[0]| - 1] == hi;
    }
  }

  /** A tower of height 2 on a one-level structure: the growth step runs on
      both rounds, so two sentinel-only levels are added and the structure
      ends with three levels, x in the bottom two. */
  lemma GrowthExample()
    ensures SkipInsert([[0, 10]], 5, 2, 0, 10) == [[0, 5, 10], [0, 5, 10], [0, 10]]
  {
    var L := [[0, 10]];
    assert Grown(L, 2, 0, 10) == [[0, 10], [0, 10], [0, 10]];
    assert ScanIndex([0, 10], 0, 5) == 0;
    assert LevelInsert([0, 10], 5) == [0, 5, 10];
    assert !FoundAtTop(L, 5);
  }

  /** Starting from the constructor's single sentinel level, insert 3 with a
      tower of height 2, then 5 with height 1. The value 5 is then in the
      bottom level only, so the duplicate test of a second insert of 5, with
      height 2, misses it: the bottom level refuses the splice but the level
      above gains 5. The insert with the duplicate test on the bottom level
      leaves that state alone. */
  lemma DuplicateBelowTopExample()
    ensures var L := SkipInsert(SkipInsert([[0, 10]], 3, 2, 0, 10), 5, 1, 0, 10);
      L == [[0, 3, 5, 10], [0, 3, 10], [0, 10]] &&
      SkipInsert(L, 5, 2, 0, 10) == [[0, 3, 5, 10], [0, 3, 5, 10], [0, 10]] &&
      IntendedInsert(L, 5, 2, 0, 10) == L
  {
    var L1 := [[0, 3, 10], [0, 3, 10], [0, 10]];
    assert ScanIndex([0, 10], 0, 3) == 0;
    assert !FoundAtTop([[0, 10]], 3);
    assert LevelInsert([0, 10], 3) == [0, 3, 10];
    assert Grown([[0, 10]], 2, 0, 10) == [[0, 10], [0, 10], [0, 10]];
    assert SkipInsert([[0, 10]], 3, 2, 0, 10) == L1;
    var L2 := [[0, 3, 5, 10], [0, 3, 10], [0, 10]];
    assert ScanIndex([0, 10], 0, 5) == 0;
    assert !FoundAtTop(L1, 5);
    assert ScanIndex([0, 3, 10], 0, 5) == 1;
    assert LevelInsert([0, 3, 10], 5) == [0, 3, 5, 10];
    assert Grown(L1, 1, 0, 10) == L1;
    assert SkipInsert(L1, 5, 1, 0, 10) == L2;
    assert !FoundAtTop(L2, 5);
    assert ScanIndex([0, 3, 5, 10], 0, 5) == 2;
    assert LevelInsert([0, 3, 5, 10], 5) == [0, 3, 5, 10];
    assert Grown(L2, 2, 0, 10) == L2;
    assert 5 in L2[0];
  }

  /** The insert its comments describe: the search ends in the bottom level,
      so the duplicate test asks whether x is in the bottom level, and only a
      new value gets a tower. */
  function IntendedInsert(L: seq<seq<int>>, x: int, i: nat, lo: int, hi: int): seq<seq<int>>
  {
    if |L| > 0 && x in L[0] then L else InsertTower(L, x, i, lo, hi)
  }

  /** The intended insert changes nothing when x is already in any level of
      a towered structure. */
  lemma IntendedInsertNoDuplicate(L: seq<seq<int>>, x: int, i: nat, lo: int, hi: int, k: nat)
    requires Towered(L) && k < |L| && x in L[k]
    ensures IntendedInsert(L, x, i, lo, hi) == L
  {
    InBottom(L, k, x);
  }

  /** The insert as written and the intended one agree except when x is in
      the bottom level but not in the top one. */
  lemma IntendedInsertAgrees(L: seq<seq<int>>, x: int, i: nat, lo: int, hi: int)
    requires Ordered(L, lo, hi) && Towered(L) && |L| > 0
    ensures (x !in L[0] || x in L[|L| - 1]) ==> IntendedInsert(L, x, i, lo, hi) == SkipInsert(L, x, i, lo, hi)
  {
    FoundAtTopIff(L, x, lo, hi);
    if x in L[|L| - 1] {
      InBottom(L, |L| - 1, x);
    }
  }

  /** The intended insert keeps every level strictly increasing between the
      sentinels, and each value's levels a prefix from the bottom. */
  lemma IntendedInsertKeepsShape(L: seq<seq<int>>, x: int, i: nat, lo: int, hi: int)
    requires lo < hi && Ordered(L, lo, hi) && Towered(L) && |L| > 0
    ensures Ordered(IntendedInsert(L, x, i, lo, hi), lo, hi)
    ensures Towered(IntendedInsert(L, x, i, lo, hi))
  {
    if x !in L[0] {
      InsertTowerShape(L, x, i, lo, hi);
    }
  }
}
