/** The SkipList class of SkipList.h: a stack of levels over one arena, the
    bottom level first. Levels are allocated bottom-up and never freed, so the
    level record at index k of the arena is level k, and the top level is the
    last one. */
module SkipLists {
  import opened Levels
  import opened Towers
  import opened Arena

  /** The values of every level, bottom level first. */
  ghost function LevelValues(nodes: seq<Node>, spines: seq<seq<nat>>): seq<seq<int>>
  {
    seq(|spines|, k requires 0 <= k < |spines| => Values(nodes, spines[k]))
  }

  /** The record of level k: its head node, and the levels just above and
      just below (null at the top and at the bottom). */
  ghost function ListAt(spines: seq<seq<nat>>, k: nat): LinkedList
    requires k < |spines| && |spines[k]| > 0
  {
    LinkedList(spines[k][0], if k + 1 < |spines| then At(k + 1) else Nil, if k == 0 then Nil else At(k - 1))
  }

  /** Level k is in place: its nodes form a chain, its record is at index k
      with that chain's head and the levels next to it as neighbours, and its
      nodes are marked as level k's in levelOf (so no node belongs to two
      levels). */
  ghost predicate LevelOk(nodes: seq<Node>, lists: seq<LinkedList>, spines: seq<seq<nat>>, levelOf: seq<nat>, k: nat)
    requires k < |spines| && |lists| == |spines|
  {
    Chain(nodes, spines[k]) && lists[k] == ListAt(spines, k) &&
    forall j :: 0 <= j < |spines[k]| ==> spines[k][j] < |levelOf| && levelOf[spines[k][j]] == k
  }

  /** The arena holds the levels spines[0..], each one in place. */
  ghost predicate Shape(nodes: seq<Node>, lists: seq<LinkedList>, spines: seq<seq<nat>>, levelOf: seq<nat>)
  {
    |spines| > 0 && |lists| == |spines| && |levelOf| == |nodes| &&
    forall k :: 0 <= k < |spines| ==> LevelOk(nodes, lists, spines, levelOf, k)
  }

  /** No node has an up or a down link: nothing in SkipList.h ever sets them. */
  ghost predicate NoVerticalLinks(nodes: seq<Node>)
  {
    forall n :: 0 <= n < |nodes| ==> nodes[n].up == Nil && nodes[n].down == Nil
  }

  /** The down link of node j of level k, when set, leads to a node of the
      level below that holds the same value. */
  ghost predicate DownOk(nodes: seq<Node>, spines: seq<seq<nat>>, k: nat, j: nat)
    requires k < |spines| && j < |spines[k]|
  {
    spines[k][j] < |nodes| ==>
      var d := nodes[spines[k][j]].down;
      d == Nil || (0 < k && d.addr in spines[k - 1] && d.addr < |nodes| && nodes[d.addr].data == nodes[spines[k][j]].data)
  }

  /** Every node's down link, when set, leads one level down to its value. */
  ghost predicate Descents(nodes: seq<Node>, spines: seq<seq<nat>>)
  {
    forall k, j :: 0 <= k < |spines| && 0 <= j < |spines[k]| ==> DownOk(nodes, spines, k, j)
  }

  /** The arena after a new level's two sentinel nodes are appended. */
  ghost function WithSentinels(nodes: seq<Node>, lo: int, hi: int): seq<Node>
  {
    var n := |nodes|;
    nodes + [Node(lo, At(n + 1), Nil, Nil, Nil), Node(hi, Nil, At(n), Nil, Nil)]
  }

  /** The level records after a new top record is appended and linked with
      the old top one. */
  ghost predicate ListsGrown(lists: seq<LinkedList>, lists': seq<LinkedList>, head: nat)
  {
    var t := |lists| - 1;
    |lists| > 0 && |lists'| == |lists| + 1 && lists'[t + 1] == LinkedList(head, Nil, At(t)) &&
    lists'[t] == lists[t].(up := At(t + 1)) && forall k :: 0 <= k < t ==> lists'[k] == lists[k]
  }

  /** Appending the sentinels of a new level keeps every old level and its
      values, and the new two nodes form a level [lo, hi]. */
  lemma GrowChains(nodes: seq<Node>, spines: seq<seq<nat>>, lo: int, hi: int)
    requires forall k :: 0 <= k < |spines| ==> Chain(nodes, spines[k])
    ensures var n := |nodes|;
      var nodes' := WithSentinels(nodes, lo, hi);
      (forall k :: 0 <= k < |spines| ==> Chain(nodes', spines[k]) && Values(nodes', spines[k]) == Values(nodes, spines[k])) &&
      Chain(nodes', [n, n + 1]) && Values(nodes', [n, n + 1]) == [lo, hi] &&
      (NoVerticalLinks(nodes) ==> NoVerticalLinks(nodes'))
  {
    var n := |nodes|;
    var nodes' := WithSentinels(nodes, lo, hi);
    assert nodes' == nodes + nodes'[n..];
    forall k | 0 <= k < |spines| ensures Chain(nodes', spines[k]) && Values(nodes', spines[k]) == Values(nodes, spines[k]) {
      ChainExtend(nodes, nodes'[n..], spines[k]);
    }
  }

  /** The head of every level holds lo. */
  lemma HeadHoldsMin(nodes: seq<Node>, spines: seq<seq<nat>>, lo: int, hi: int, k: nat)
    requires Ordered(LevelValues(nodes, spines), lo, hi) && k < |spines|
    requires Chain(nodes, spines[k])
    ensures nodes[spines[k][0]].data == lo
  {
    assert SentinelLevel(LevelValues(nodes, spines)[k], lo, hi);
  }

  /** Where the forward scan of a level from position j lands: on a node
      holding at most x when the start did, whose next is null or holds more
      than x. */
  lemma ScanLands(nodes: seq<Node>, sp: seq<nat>, j: nat, x: int)
    requires Chain(nodes, sp) && j < |sp|
    ensures var n := nodes[sp[ScanIndex(Values(nodes, sp), j, x)]];
      (nodes[sp[j]].data <= x ==> n.data <= x) &&
      (n.next == Nil || (n.next.addr < |nodes| && x < nodes[n.next.addr].data))
  {
    var v := Values(nodes, sp);
    var j' := ScanIndex(v, j, x);
    if j < j' {
      assert v[j'] <= x;
    }
    if j' + 1 < |sp| {
      assert nodes[sp[j']].next == At(sp[j' + 1]);
      assert v[j' + 1] == nodes[sp[j' + 1]].data;
    }
  }

  /** The position of v in s. */
  ghost function IndexOf(s: seq<nat>, v: nat): (j: nat)
    requires v in s
    ensures j < |s| && s[j] == v
  {
    if s[0] == v then 0
    else
      assert s == [s[0]] + s[1..];
      1 + IndexOf(s[1..], v)
  }

  /** A set down link leads one level down, to a node holding the same value. */
  lemma DownStep(nodes: seq<Node>, spines: seq<seq<nat>>, k: nat, j: nat)
    requires Descents(nodes, spines) && k < |spines| && j < |spines[k]| && spines[k][j] < |nodes|
    requires nodes[spines[k][j]].down != Nil
    ensures var d := nodes[spines[k][j]].down.addr;
      0 < k && d < |nodes| && nodes[d].data == nodes[spines[k][j]].data &&
      d in spines[k - 1]
  {
    assert DownOk(nodes, spines, k, j);
  }

  /** Putting a new level (two new sentinel nodes and a record) on top and
      linking it with the old top level gives the shape again; the old
      levels keep their values and the new one holds [lo, hi]. */
  lemma GrowStep(nodes: seq<Node>, lists: seq<LinkedList>, spines: seq<seq<nat>>, levelOf: seq<nat>,
                 lists': seq<LinkedList>, lo: int, hi: int)
    requires Shape(nodes, lists, spines, levelOf)
    requires ListsGrown(lists, lists', |nodes|)
    ensures var n := |nodes|;
      var t := |spines| - 1;
      var nodes' := WithSentinels(nodes, lo, hi);
      Shape(nodes', lists', spines + [[n, n + 1]], levelOf + [t + 1, t + 1]) &&
      (forall k :: 0 <= k < |spines| ==> Values(nodes', spines[k]) == Values(nodes, spines[k])) &&
      Values(nodes', [n, n + 1]) == [lo, hi] &&
      (NoVerticalLinks(nodes) ==> NoVerticalLinks(nodes'))
  {
    var n := |nodes|;
    var t := |spines| - 1;
    var spines' := spines + [[n, n + 1]];
    var levelOf' := levelOf + [t + 1, t + 1];
    var nodes' := WithSentinels(nodes, lo, hi);
    forall k | 0 <= k < |spines| ensures Chain(nodes, spines[k]) {
      assert LevelOk(nodes, lists, spines, levelOf, k);
    }
    GrowChains(nodes, spines, lo, hi);
    forall k | 0 <= k < |spines'| ensures LevelOk(nodes', lists', spines', levelOf', k) {
      if k < |spines| {
        assert LevelOk(nodes, lists, spines, levelOf, k);
        assert spines'[k] == spines[k];
      }
    }
  }

  /** Level k holds what the loop of SkipList::insert has made of level k
      of the grown levels G after m rounds: x spliced in when k < m, the
      level untouched otherwise. */
  ghost predicate RoundOk(nodes: seq<Node>, spines: seq<seq<nat>>, G: seq<seq<int>>, x: int, m: nat, k: nat)
    requires k < |spines| && k < |G|
  {
    Values(nodes, spines[k]) == if k < m then LevelInsert(G[k], x) else G[k]
  }

  /** Every level present holds what m rounds have made of it. */
  ghost predicate Rounds(nodes: seq<Node>, spines: seq<seq<nat>>, G: seq<seq<int>>, x: int, m: nat)
  {
    |spines| <= |G| && forall k :: 0 <= k < |spines| ==> RoundOk(nodes, spines, G, x, m, k)
  }

  /** What round b of the loop of SkipList::insert does, from the state
      nodes, lists, spines, levelOf to the primed one, with result inserted:
      the shape holds again with the same level records; only level b
      changes, and b + 1 rounds are done; on a level with two ends, inserted
      is a node exactly when x lies strictly between them and is not there
      yet, and it is then a node of level b holding x; old nodes keep their
      values and no up or down link appears. */
  ghost predicate LevelRound(nodes: seq<Node>, lists: seq<LinkedList>, spines: seq<seq<nat>>, levelOf: seq<nat>,
                             nodes': seq<Node>, lists': seq<LinkedList>, spines': seq<seq<nat>>, levelOf': seq<nat>,
                             G: seq<seq<int>>, x: int, b: nat, inserted: Ref)
  {
    Shape(nodes', lists', spines', levelOf') && lists' == lists &&
    b < |spines| == |spines'| && (forall k :: 0 <= k < |spines| && k != b ==> spines'[k] == spines[k]) &&
    Rounds(nodes', spines', G, x, b + 1) &&
    (StrictlyIncreasing(G[b]) && |G[b]| >= 2 ==>
      (inserted.At? <==> (G[b][0] < x < G[b][|G[b]| - 1] && x !in G[b]))) &&
    (inserted.At? ==> inserted.addr < |nodes'| && inserted.addr in spines'[b] && nodes'[inserted.addr].data == x) &&
    KeepsData(nodes, nodes') && (NoVerticalLinks(nodes) ==> NoVerticalLinks(nodes'))
  }

  /** Round b when the scan of level b lands in front of a place for x:
      the new node goes in behind the landing node. */
  lemma SpliceRound(nodes: seq<Node>, lists: seq<LinkedList>, spines: seq<seq<nat>>, levelOf: seq<nat>,
                    G: seq<seq<int>>, x: int, b: nat)
    requires Shape(nodes, lists, spines, levelOf) && b < |spines| && Rounds(nodes, spines, G, x, b)
    requires LevelOk(nodes, lists, spines, levelOf, b)
    requires var v := Values(nodes, spines[b]);
      var j := ScanIndex(v, 0, x);
      j + 1 < |v| && v[j] < x <= v[j + 1]
    ensures var sp := spines[b];
      var j := ScanIndex(Values(nodes, sp), 0, x);
      LevelRound(nodes, lists, spines, levelOf,
        Spliced(nodes, sp[j], sp[j + 1], x), lists, spines[b := Splice(sp, j, |nodes|)], levelOf + [b],
        G, x, b, At(|nodes|))
  {
    var sp := spines[b];
    var v := Values(nodes, sp);
    var j := ScanIndex(v, 0, x);
    assert LevelOk(nodes, lists, spines, levelOf, b);
    assert RoundOk(nodes, spines, G, x, b, b);
    SpliceStep(nodes, lists, spines, levelOf, b, j, x);
    SplicePositions(sp, j, |nodes|);
    var nodes' := Spliced(nodes, sp[j], sp[j + 1], x);
    var spines' := spines[b := Splice(sp, j, |nodes|)];
    assert spines'[b][j + 1] == |nodes|;
    RoundStep(nodes, spines, nodes', spines', G, x, b);
    if StrictlyIncreasing(G[b]) && |G[b]| >= 2 {
      LevelInsertAccepts(v, x);
    }
  }

  /** Round b when level b refuses x: nothing changes. */
  lemma RefusedRound(nodes: seq<Node>, lists: seq<LinkedList>, spines: seq<seq<nat>>, levelOf: seq<nat>,
                     G: seq<seq<int>>, x: int, b: nat)
    requires Shape(nodes, lists, spines, levelOf) && b < |spines| && Rounds(nodes, spines, G, x, b)
    requires LevelOk(nodes, lists, spines, levelOf, b)
    requires var v := Values(nodes, spines[b]);
      var j := ScanIndex(v, 0, x);
      !(j + 1 < |v| && v[j] < x <= v[j + 1])
    ensures LevelRound(nodes, lists, spines, levelOf, nodes, lists, spines, levelOf, G, x, b, Nil)
  {
    assert RoundOk(nodes, spines, G, x, b, b);
    RoundStep(nodes, spines, nodes, spines, G, x, b);
    if StrictlyIncreasing(G[b]) && |G[b]| >= 2 {
      LevelInsertAccepts(Values(nodes, spines[b]), x);
    }
  }

  /** One more round: when level b now holds x spliced into G[b] and every
      other level holds its old values, b + 1 rounds are done. */
  lemma RoundStep(nodes: seq<Node>, spines: seq<seq<nat>>, nodes': seq<Node>, spines': seq<seq<nat>>,
                  G: seq<seq<int>>, x: int, b: nat)
    requires Rounds(nodes, spines, G, x, b) && b < |spines| == |spines'|
    requires forall k :: 0 <= k < |spines| && k != b ==> Values(nodes', spines'[k]) == Values(nodes, spines[k])
    requires Values(nodes', spines'[b]) == LevelInsert(G[b], x)
    ensures Rounds(nodes', spines', G, x, b + 1)
  {
    var m := b + 1;
    forall k | 0 <= k < |spines'| ensures RoundOk(nodes', spines', G, x, m, k) {
      assert RoundOk(nodes, spines, G, x, b, k);
    }
  }

  /** Before the loop, the levels hold the bottom of the grown levels. */
  lemma RoundsStart(nodes: seq<Node>, spines: seq<seq<nat>>, i: nat, x: int, lo: int, hi: int)
    ensures Rounds(nodes, spines, Grown(LevelValues(nodes, spines), i, lo, hi), x, 0)
  {
    var G := Grown(LevelValues(nodes, spines), i, lo, hi);
    forall k | 0 <= k < |spines| ensures RoundOk(nodes, spines, G, x, 0, k) {
    }
  }

  /** With every round done on all the grown levels, the levels hold the
      tower insert of x. */
  lemma RoundsDone(nodes: seq<Node>, spines: seq<seq<nat>>, L: seq<seq<int>>, x: int, i: nat, lo: int, hi: int)
    requires Rounds(nodes, spines, Grown(L, i, lo, hi), x, i) && |spines| == |Grown(L, i, lo, hi)|
    ensures LevelValues(nodes, spines) == InsertTower(L, x, i, lo, hi)
  {
    var G := Grown(L, i, lo, hi);
    forall k | 0 <= k < |spines| ensures LevelValues(nodes, spines)[k] == InsertTower(L, x, i, lo, hi)[k] {
      assert RoundOk(nodes, spines, G, x, i, k);
    }
  }

  /** With no down link set, every down link trivially leads where it should. */
  lemma FlatDescents(nodes: seq<Node>, spines: seq<seq<nat>>)
    requires NoVerticalLinks(nodes)
    ensures Descents(nodes, spines)
  {
    forall k, j | 0 <= k < |spines| && 0 <= j < |spines[k]| ensures DownOk(nodes, spines, k, j) {
    }
  }

  /** Every old node keeps its value. */
  ghost predicate KeepsData(nodes: seq<Node>, nodes': seq<Node>)
  {
    |nodes| <= |nodes'| && forall m :: 0 <= m < |nodes| ==> nodes'[m].data == nodes[m].data
  }

  /** Splicing a new node into level b behind position j gives the shape
      again, with the new node marked as level b's and level b's values
      those of InsertAt; no other level changes. */
  lemma SpliceStep(nodes: seq<Node>, lists: seq<LinkedList>, spines: seq<seq<nat>>, levelOf: seq<nat>,
                   b: nat, j: nat, x: int)
    requires Shape(nodes, lists, spines, levelOf) && b < |spines| && j + 1 < |spines[b]|
    requires LevelOk(nodes, lists, spines, levelOf, b)
    ensures var sp := spines[b];
      var nodes' := Spliced(nodes, sp[j], sp[j + 1], x);
      var spines' := spines[b := Splice(sp, j, |nodes|)];
      Shape(nodes', lists, spines', levelOf + [b]) &&
      (forall k :: 0 <= k < |spines| && k != b ==> Values(nodes', spines'[k]) == Values(nodes, spines[k])) &&
      Values(nodes', spines'[b]) == InsertAt(Values(nodes, sp), j, x) &&
      KeepsData(nodes, nodes') && (NoVerticalLinks(nodes) ==> NoVerticalLinks(nodes'))
  {
    var sp := spines[b];
    var n := |nodes|;
    var nodes' := Spliced(nodes, sp[j], sp[j + 1], x);
    var spines' := spines[b := Splice(sp, j, n)];
    var levelOf' := levelOf + [b];
    SpliceChain(nodes, sp, j, x);
    SplicePositions(sp, j, n);
    forall k | 0 <= k < |spines'|
      ensures LevelOk(nodes', lists, spines', levelOf', k) && Values(nodes', spines'[k]) == (if k == b then InsertAt(Values(nodes, sp), j, x) else Values(nodes, spines[k]))
    {
      if k != b {
        SpliceOther(nodes, lists, spines, levelOf, b, j, x, k);
      } else {
        forall t | 0 <= t < |spines'[k]| ensures spines'[k][t] < |levelOf'| && levelOf'[spines'[k][t]] == k {
          if t > j + 1 {
            assert spines'[k][t] == sp[t - 1];
          }
        }
      }
    }
  }

  /** A level other than the spliced one keeps its place and its values. */
  lemma SpliceOther(nodes: seq<Node>, lists: seq<LinkedList>, spines: seq<seq<nat>>, levelOf: seq<nat>,
                    b: nat, j: nat, x: int, k: nat)
    requires Shape(nodes, lists, spines, levelOf) && b < |spines| && j + 1 < |spines[b]|
    requires LevelOk(nodes, lists, spines, levelOf, b)
    requires k < |spines| && k != b
    ensures var sp := spines[b];
      var nodes' := Spliced(nodes, sp[j], sp[j + 1], x);
      var spines' := spines[b := Splice(sp, j, |nodes|)];
      LevelOk(nodes', lists, spines', levelOf + [b], k) && Values(nodes', spines'[k]) == Values(nodes, spines[k])
  {
    var sp := spines[b];
    var nodes' := Spliced(nodes, sp[j], sp[j + 1], x);
    assert LevelOk(nodes, lists, spines, levelOf, k);
    forall t | 0 <= t < |spines[k]| ensures nodes'[spines[k][t]] == nodes[spines[k][t]] {
      assert levelOf[spines[k][t]] == k;
      assert levelOf[sp[j]] == b && levelOf[sp[j + 1]] == b;
    }
    ChainFrame(nodes, nodes', spines[k]);
  }

  /** The number of 1-flips before the first 0-flip, plus one: the loop at
      SkipList.h:262-276, drawing from the given flips instead of rand() % 2. */
  method DrawHeight(flips: seq<Flip>) returns (i: nat)
    requires 0 in flips
    ensures i == TowerHeight(flips)
  {
    i := 1;
    var t := 0;
    while true
      invariant i == t + 1 && t < TowerHeight(flips)
      decreases |flips| - t
    {
      var result := flips[t];
      t := t + 1;
      if result == 1 {
        i := i + 1;
      } else {
        break;
      }
    }
  }

  /** A skip list: the top level, the sentinel values, and the arena holding
      every level. */
  class SkipList {
    const heap: Heap
    var topList: nat
    const minVal: int
    const maxVal: int
    /** The node indices of every level, bottom level first, head first. */
    ghost var spines: seq<seq<nat>>
    /** The level each node belongs to. */
    ghost var levelOf: seq<nat>

    /** The values of every level, bottom level first. */
    ghost function Vals(): seq<seq<int>>
      reads this, heap
    {
      LevelValues(heap.nodes, spines)
    }

    /** The skip-list invariant: the levels are well linked, each is strictly
        increasing between the two sentinels, every value of a level is in
        the level below, and set down links lead to the same value one level
        down. */
    ghost predicate Valid()
      reads this, heap
    {
      minVal < maxVal &&
      Shape(heap.nodes, heap.lists, spines, levelOf) && topList == |spines| - 1 &&
      Ordered(Vals(), minVal, maxVal) && Towered(Vals()) &&
      Descents(heap.nodes, spines)
    }

    /** SkipList's constructor (SkipList.h:193-198): one level holding only
        the two sentinels. */
    constructor (minVal: int, maxVal: int)
      requires minVal < maxVal
      ensures Valid() && NoVerticalLinks(heap.nodes) && fresh(heap)
      ensures this.minVal == minVal && this.maxVal == maxVal
      ensures Vals() == [[minVal, maxVal]]
    {
      this.minVal := minVal;
      this.maxVal := maxVal;
      heap := new Heap();
      new;
      topList := heap.NewList(minVal, maxVal);
      spines := [[0, 1]];
      levelOf := [0, 0];
      assert StrictlyIncreasing([minVal, maxVal]);
      assert Vals() == [[minVal, maxVal]];
    }

    /** SkipList::search (SkipList.h:233-248): scan the top level forward,
        then go down through the current node's down link while it has one and
        scan again. The result holds at most x (when x is not below the
        sentinels) and its next is null or holds more than x. With no down
        links set, the result is where LinkedList::search from the top
        level's head lands. */
    method Search(x: int) returns (r: nat)
      requires Valid()
      ensures r < |heap.nodes|
      ensures heap.nodes[r].next == Nil ||
        (heap.nodes[r].next.addr < |heap.nodes| && x < heap.nodes[heap.nodes[r].next.addr].data)
      ensures minVal <= x ==> heap.nodes[r].data <= x
      ensures NoVerticalLinks(heap.nodes) ==>
        0 < |spines[|spines| - 1]| && r == spines[|spines| - 1][ScanIndex(Vals()[|spines| - 1], 0, x)]
    {
      var current := heap.lists[topList].head;
      ghost var lvl: nat := topList;
      ghost var j: nat := 0;
      assert LevelOk(heap.nodes, heap.lists, spines, levelOf, lvl);
      HeadHoldsMin(heap.nodes, spines, minVal, maxVal, lvl);
      while true
        invariant lvl < |spines| && j < |spines[lvl]| && current == spines[lvl][j]
        invariant current < |heap.nodes|
        invariant minVal <= x ==> heap.nodes[current].data <= x
        invariant NoVerticalLinks(heap.nodes) ==> lvl == |spines| - 1 && j == 0
        decreases lvl
      {
        assert LevelOk(heap.nodes, heap.lists, spines, levelOf, lvl);
        var found := heap.Search(At(current), x, spines[lvl], j);
        ScanLands(heap.nodes, spines[lvl], j, x);
        j := ScanIndex(Values(heap.nodes, spines[lvl]), j, x);
        current := found.addr;
        if heap.nodes[current].down == Nil {
          break;
        }
        DownStep(heap.nodes, spines, lvl, j);
        current := heap.nodes[current].down.addr;
        j := IndexOf(spines[lvl - 1], current);
        lvl := lvl - 1;
      }
      r := current;
      assert Vals()[lvl] == Values(heap.nodes, spines[lvl]);
    }

    /** The walk at SkipList.h:278-284: follow down from the top level to
        the bottom one, counting the levels. */
    method CountLevels() returns (height: nat, bottomList: nat)
      requires Valid()
      ensures height == |spines| && bottomList == 0
    {
      height := 1;
      bottomList := topList;
      assert LevelOk(heap.nodes, heap.lists, spines, levelOf, bottomList);
      while heap.lists[bottomList].down != Nil
        invariant bottomList < |spines| && height + bottomList == |spines|
        invariant LevelOk(heap.nodes, heap.lists, spines, levelOf, bottomList)
        decreases bottomList
      {
        bottomList := heap.lists[bottomList].down.addr;
        height := height + 1;
        assert LevelOk(heap.nodes, heap.lists, spines, levelOf, bottomList);
      }
    }

    /** The growth step of SkipList::insert (SkipList.h:288-295): a new
        level holding only the two sentinels goes on top, linked with the old
        top level both ways, and becomes the top level. */
    method AddLevel(ghost G: seq<seq<int>>, ghost x: int, ghost m: nat)
      requires Shape(heap.nodes, heap.lists, spines, levelOf) && topList == |spines| - 1
      requires Rounds(heap.nodes, spines, G, x, m) && m <= |spines| < |G| && G[|spines|] == [minVal, maxVal]
      modifies this, heap
      ensures Shape(heap.nodes, heap.lists, spines, levelOf) && topList == |spines| - 1
      ensures |spines| == |old(spines)| + 1 && forall k :: 0 <= k < |old(spines)| ==> spines[k] == old(spines)[k]
      ensures spines[|spines| - 1] == [|old(heap.nodes)|, |old(heap.nodes)| + 1]
      ensures Values(heap.nodes, spines[|spines| - 1]) == [minVal, maxVal]
      ensures Rounds(heap.nodes, spines, G, x, m)
      ensures KeepsData(old(heap.nodes), heap.nodes)
      ensures old(NoVerticalLinks(heap.nodes)) ==> NoVerticalLinks(heap.nodes)
    {
      ghost var nodes0, lists0 := heap.nodes, heap.lists;
      var newList := heap.NewList(minVal, maxVal);
      heap.lists := heap.lists[newList := heap.lists[newList].(down := At(topList))];
      heap.lists := heap.lists[topList := heap.lists[topList].(up := At(newList))];
      heap.lists := heap.lists[newList := heap.lists[newList].(up := Nil)];
      assert heap.nodes == WithSentinels(nodes0, minVal, maxVal);
      assert ListsGrown(lists0, heap.lists, |nodes0|);
      GrowStep(nodes0, lists0, spines, levelOf, heap.lists, minVal, maxVal);
      topList := newList;
      ghost var spines0 := spines;
      spines := spines + [[|nodes0|, |nodes0| + 1]];
      levelOf := levelOf + [newList, newList];
      forall k | 0 <= k < |spines| ensures RoundOk(heap.nodes, spines, G, x, m, k) {
        if k < |spines0| {
          assert RoundOk(nodes0, spines0, G, x, m, k);
        }
      }
    }

    /** The splice step of SkipList::insert (SkipList.h:297-298), round b
        of its loop: search level b from its head for x and splice x in where
        the search lands. With the bottom b levels of G done, level b is done
        too and no other level changes. The result is the new node, or null
        when the level refused x; on a level with two ends, it is a node
        exactly when x lies strictly between them and is not there yet. */
    method InsertInLevel(b: nat, x: int, ghost G: seq<seq<int>>) returns (inserted: Ref)
      requires Shape(heap.nodes, heap.lists, spines, levelOf) && b < |spines|
      requires Rounds(heap.nodes, spines, G, x, b)
      modifies this, heap
      ensures topList == old(topList)
      ensures LevelRound(old(heap.nodes), old(heap.lists), old(spines), old(levelOf),
        heap.nodes, heap.lists, spines, levelOf, G, x, b, inserted)
    {
      ghost var sp := spines[b];
      ghost var v := Values(heap.nodes, sp);
      assert LevelOk(heap.nodes, heap.lists, spines, levelOf, b);
      var newInsert := heap.Search(At(heap.lists[b].head), x, sp, 0);
      ghost var j := ScanIndex(v, 0, x);
      inserted := heap.Insert(newInsert, x, sp, j);
      if inserted.At? {
        SpliceRound(old(heap.nodes), heap.lists, spines, levelOf, G, x, b);
        spines := spines[b := Splice(sp, j, inserted.addr)];
        levelOf := levelOf + [b];
      } else {
        RefusedRound(heap.nodes, heap.lists, spines, levelOf, G, x, b);
      }
    }

    /** SkipList::insert (SkipList.h:252-303), with the coin flips given.
        When the search lands on a node holding x, nothing changes and null
        is returned. Otherwise the levels become SkipInsert of the old ones
        for the drawn tower height, and the result is what the splice into
        the bottom level returned: the new bottom node, or null when the
        bottom level refused x. */
    method Insert(x: int, flips: seq<Flip>) returns (r: Ref)
      requires Valid() && NoVerticalLinks(heap.nodes)
      requires 0 in flips
      modifies this, heap
      ensures Valid() && NoVerticalLinks(heap.nodes)
      ensures Vals() == SkipInsert(old(Vals()), x, TowerHeight(flips), minVal, maxVal)
      ensures r.At? <==> (minVal < x < maxVal && x !in old(Vals())[0])
      ensures r.At? ==> r.addr < |heap.nodes| && r.addr in spines[0] && heap.nodes[r.addr].data == x
      ensures x in old(Vals())[|old(Vals())| - 1] ==> r == Nil && unchanged(this, heap)
    {
      ghost var L0 := Vals();
      FoundAtTopIff(L0, x, minVal, maxVal);
      var p := Search(x);
      if heap.nodes[p].data == x {
        InBottom(L0, |L0| - 1, x);
        return Nil;
      }
      assert !FoundAtTop(L0, x);
      var i := DrawHeight(flips);
      var height, bottom := CountLevels();
      ghost var G := Grown(L0, i, minVal, maxVal);
      GrownAt(L0, i, minVal, maxVal);
      RoundsStart(heap.nodes, spines, i, x, minVal, maxVal);
      assert SentinelLevel(L0[0], minVal, maxVal);
      r := BuildTower(x, i, height, bottom, G);
      RoundsDone(heap.nodes, spines, L0, x, i, minVal, maxVal);
      assert Vals() == SkipInsert(L0, x, i, minVal, maxVal);
      SkipInsertKeepsShape(L0, x, i, minVal, maxVal);
      FlatDescents(heap.nodes, spines);
    }

    /** One round of the loop of SkipList::insert (SkipList.h:287-298):
        when grow is set, a new sentinel-only level goes on top; then x is
        spliced into level b, the bottom b levels of G being done. */
    method Round(b: nat, grow: bool, x: int, ghost G: seq<seq<int>>) returns (inserted: Ref)
      requires Shape(heap.nodes, heap.lists, spines, levelOf) && topList == |spines| - 1
      requires Rounds(heap.nodes, spines, G, x, b)
      requires if grow then b <= |spines| < |G| && G[|spines|] == [minVal, maxVal] else b < |spines|
      modifies this, heap
      ensures Shape(heap.nodes, heap.lists, spines, levelOf) && topList == |spines| - 1
      ensures |spines| == |old(spines)| + (if grow then 1 else 0)
      ensures forall k :: 0 <= k < |old(spines)| && k != b ==> spines[k] == old(spines)[k]
      ensures Rounds(heap.nodes, spines, G, x, b + 1)
      ensures StrictlyIncreasing(G[b]) && |G[b]| >= 2 ==>
        (inserted.At? <==> (G[b][0] < x < G[b][|G[b]| - 1] && x !in G[b]))
      ensures inserted.At? ==>
        inserted.addr < |heap.nodes| && inserted.addr in spines[b] && heap.nodes[inserted.addr].data == x
      ensures KeepsData(old(heap.nodes), heap.nodes)
      ensures old(NoVerticalLinks(heap.nodes)) ==> NoVerticalLinks(heap.nodes)
    {
      if grow {
        AddLevel(G, x, b);
      }
      inserted := InsertInLevel(b, x, G);
    }

    /** The loop of SkipList::insert (SkipList.h:286-300): for each h from 1
        to i, put a new sentinel-only level on top when i exceeds the height
        counted before the loop, then splice x into the level bottomList and
        move bottomList one level up. Starting from the bottom level, with
        the levels holding the bottom of G and the rest of G sentinel-only,
        it ends with all of G present and the bottom i levels done. The
        result is what the splice into the bottom level returned. */
    method BuildTower(x: int, i: nat, height: nat, bottom: nat, ghost G: seq<seq<int>>) returns (r: Ref)
      requires Shape(heap.nodes, heap.lists, spines, levelOf) && NoVerticalLinks(heap.nodes)
      requires topList == |spines| - 1 && |spines| == height && bottom == 0
      requires Rounds(heap.nodes, spines, G, x, 0) && SentinelLevel(G[0], minVal, maxVal)
      requires |G| == if i > height then height + i else height
      requires forall k :: height <= k < |G| ==> G[k] == [minVal, maxVal]
      modifies this, heap
      ensures Shape(heap.nodes, heap.lists, spines, levelOf) && NoVerticalLinks(heap.nodes)
      ensures topList == |spines| - 1 && |spines| == |G|
      ensures Rounds(heap.nodes, spines, G, x, i)
      ensures r.At? <==> (i > 0 && minVal < x < maxVal && x !in G[0])
      ensures r.At? ==> r.addr < |heap.nodes| && r.addr in spines[0] && heap.nodes[r.addr].data == x
    {
      r := Nil;
      var bottomList: Ref := At(bottom);
      var h := 1;
      while h <= i
        invariant 1 <= h <= i + 1
        invariant Shape(heap.nodes, heap.lists, spines, levelOf) && NoVerticalLinks(heap.nodes)
        invariant topList == |spines| - 1
        invariant |spines| == if i > height then height + h - 1 else height
        invariant bottomList == if h - 1 < |spines| then At(h - 1) else Nil
        invariant Rounds(heap.nodes, spines, G, x, h - 1)
        invariant h == 1 ==> r == Nil
        invariant h > 1 ==> (r.At? <==> (minVal < x < maxVal && x !in G[0]))
        invariant r.At? ==> r.addr < |heap.nodes| && r.addr in spines[0] && heap.nodes[r.addr].data == x
      {
        ghost var b: nat := h - 1;
        var inserted := Round(bottomList.addr, i > height, x, G);
        if h == 1 {
          r := inserted;
        }
        assert LevelOk(heap.nodes, heap.lists, spines, levelOf, b);
        bottomList := heap.lists[bottomList.addr].up;
        h := h + 1;
      }
    }
  }
}
