/** The nodes and the level records of SkipList.h, held in an arena: a
    pointer is null or the index of a record, and the pointer fields of the
    C++ objects are fields of the records. Node and LinkedList objects are
    never freed while the structure lives, so indices stay valid. */
module Arena {
  import opened Levels

  /** A pointer: null, or the index of a record in the arena. */
  datatype Ref = Nil | At(addr: nat)

  /** A Node: its value (which doubles as key) and its four links. */
  datatype Node = Node(data: int, next: Ref, prev: Ref, up: Ref, down: Ref)

  /** A LinkedList: its head node and the levels above and below it. */
  datatype LinkedList = LinkedList(head: nat, up: Ref, down: Ref)

  /** sp holds, head first, the indices of the nodes of one level: distinct
      nodes, each one's next the one after it and each one's prev the one
      before it, with a null prev at the head and a null next at the tail. */
  ghost predicate Chain(nodes: seq<Node>, sp: seq<nat>)
  {
    |sp| > 0 &&
    (forall j :: 0 <= j < |sp| ==> sp[j] < |nodes|) &&
    (forall a, b :: 0 <= a < b < |sp| ==> sp[a] != sp[b]) &&
    (forall j :: 0 <= j < |sp| - 1 ==> nodes[sp[j]].next == At(sp[j + 1]) && nodes[sp[j + 1]].prev == At(sp[j])) &&
    nodes[sp[|sp| - 1]].next == Nil && nodes[sp[0]].prev == Nil
  }

  /** The values a level's nodes hold, head first. */
  ghost function Values(nodes: seq<Node>, sp: seq<nat>): seq<int>
  {
    seq(|sp|, j requires 0 <= j < |sp| => if sp[j] < |nodes| then nodes[sp[j]].data else 0)
  }

  /** A level's node indices after node n is spliced in behind position k. */
  ghost function Splice(sp: seq<nat>, k: nat, n: nat): seq<nat>
    requires k < |sp|
  {
    sp[..k + 1] + [n] + sp[k + 1..]
  }

  /** The arena after a new node holding x is spliced in between the nodes
      a and c: a's next and c's prev now point to it. */
  ghost function Spliced(nodes: seq<Node>, a: nat, c: nat, x: int): seq<Node>
    requires a < |nodes| && c < |nodes|
  {
    var n := |nodes|;
    nodes[a := nodes[a].(next := At(n))][c := nodes[c].(prev := At(n))] + [Node(x, At(c), At(a), Nil, Nil)]
  }

  /** Where the old positions of a level go when a node is spliced in. */
  lemma SplicePositions(sp: seq<nat>, k: nat, n: nat)
    requires k < |sp|
    ensures var sp' := Splice(sp, k, n);
      |sp'| == |sp| + 1 && sp'[k + 1] == n &&
      (forall j :: 0 <= j <= k ==> sp'[j] == sp[j]) &&
      (forall j :: k + 1 < j < |sp'| ==> sp'[j] == sp[j - 1])
  {
  }

  /** Splicing in a node that is not yet in the level keeps its nodes distinct. */
  lemma SpliceDistinct(sp: seq<nat>, k: nat, n: nat)
    requires k < |sp|
    requires forall j :: 0 <= j < |sp| ==> sp[j] < n
    requires forall a, b :: 0 <= a < b < |sp| ==> sp[a] != sp[b]
    ensures var sp' := Splice(sp, k, n);
      forall a, b :: 0 <= a < b < |sp'| ==> sp'[a] != sp'[b]
  {
    var sp' := Splice(sp, k, n);
    SplicePositions(sp, k, n);
    forall a, b | 0 <= a < b < |sp'| ensures sp'[a] != sp'[b] {
      if b <= k {
      } else if b == k + 1 {
        assert sp[a] < n;
      } else if a > k + 1 {
        assert sp'[a] == sp[a - 1] && sp'[b] == sp[b - 1];
      } else if a == k + 1 {
        assert sp[b - 1] < n;
      } else {
        assert sp'[b] == sp[b - 1];
      }
    }
  }

  /** The links of a level after the splice: each node's next is the one
      after it and its prev the one before it. */
  lemma SpliceLinks(nodes: seq<Node>, sp: seq<nat>, k: nat, x: int)
    requires Chain(nodes, sp) && k + 1 < |sp|
    ensures var nodes' := Spliced(nodes, sp[k], sp[k + 1], x);
      var sp' := Splice(sp, k, |nodes|);
      forall j :: 0 <= j < |sp'| - 1 ==>
        nodes'[sp'[j]].next == At(sp'[j + 1]) && nodes'[sp'[j + 1]].prev == At(sp'[j])
  {
    var n := |nodes|;
    var nodes' := Spliced(nodes, sp[k], sp[k + 1], x);
    var sp' := Splice(sp, k, n);
    SplicePositions(sp, k, n);
    forall j | 0 <= j < |sp'| - 1
      ensures nodes'[sp'[j]].next == At(sp'[j + 1]) && nodes'[sp'[j + 1]].prev == At(sp'[j])
    {
      if j < k {
        assert sp[j] != sp[k] && sp[j] != sp[k + 1];
        assert sp[j + 1] != sp[k + 1];
        if j + 1 < k { assert sp[j + 1] != sp[k]; }
      } else if j == k {
      } else if j == k + 1 {
        if k + 2 < |sp| { assert sp[k + 2] != sp[k] && sp[k + 2] != sp[k + 1]; }
      } else {
        assert sp[j - 1] != sp[k];
        assert sp[j] != sp[k] && sp[j] != sp[k + 1];
      }
    }
  }

  /** Splicing a new node in between two neighbours of a level gives a level
      again, holding the new value at the spliced position. */
  lemma SpliceChain(nodes: seq<Node>, sp: seq<nat>, k: nat, x: int)
    requires Chain(nodes, sp) && k + 1 < |sp|
    ensures Chain(Spliced(nodes, sp[k], sp[k + 1], x), Splice(sp, k, |nodes|))
    ensures Values(Spliced(nodes, sp[k], sp[k + 1], x), Splice(sp, k, |nodes|)) == InsertAt(Values(nodes, sp), k, x)
  {
    var n := |nodes|;
    SplicePositions(sp, k, n);
    SpliceDistinct(sp, k, n);
    SpliceLinks(nodes, sp, k, x);
    if |sp| - 1 != k + 1 {
      assert sp[|sp| - 1] != sp[k] && sp[|sp| - 1] != sp[k + 1];
    }
    assert sp[0] != sp[k + 1];
    SpliceValues(nodes, sp, k, x);
  }

  /** The values of a level after the splice: the new value right after
      position k. */
  lemma SpliceValues(nodes: seq<Node>, sp: seq<nat>, k: nat, x: int)
    requires Chain(nodes, sp) && k + 1 < |sp|
    ensures Values(Spliced(nodes, sp[k], sp[k + 1], x), Splice(sp, k, |nodes|)) == InsertAt(Values(nodes, sp), k, x)
  {
    var n := |nodes|;
    var nodes' := Spliced(nodes, sp[k], sp[k + 1], x);
    var sp' := Splice(sp, k, n);
    SplicePositions(sp, k, n);
    assert forall m :: 0 <= m < n ==> nodes'[m].data == nodes[m].data;
    var v := InsertAt(Values(nodes, sp), k, x);
    assert |Values(nodes', sp')| == |v|;
    forall j | 0 <= j < |v| ensures Values(nodes', sp')[j] == v[j] {
      if j > k + 1 {
        assert sp'[j] == sp[j - 1];
      }
    }
  }

  /** Appending records to the arena leaves a level and its values alone. */
  lemma ChainExtend(nodes: seq<Node>, more: seq<Node>, sp: seq<nat>)
    requires Chain(nodes, sp)
    ensures Chain(nodes + more, sp) && Values(nodes + more, sp) == Values(nodes, sp)
  {
  }

  /** A level none of whose nodes changed is still a level with the same values. */
  lemma ChainFrame(nodes: seq<Node>, nodes': seq<Node>, sp: seq<nat>)
    requires Chain(nodes, sp) && |nodes| <= |nodes'|
    requires forall j :: 0 <= j < |sp| ==> nodes'[sp[j]] == nodes[sp[j]]
    ensures Chain(nodes', sp) && Values(nodes', sp) == Values(nodes, sp)
  {
  }

  /** The arena: every node and every level record, allocated in order. */
  class Heap {
    var nodes: seq<Node>
    var lists: seq<LinkedList>

    constructor ()
      ensures nodes == [] && lists == []
    {
      nodes := [];
      lists := [];
    }

    /** Node's constructor (SkipList.h:79-86): a new node holding x with
        all four links null. */
    method NewNode(x: int) returns (n: nat)
      modifies this
      ensures n == |old(nodes)| && nodes == old(nodes) + [Node(x, Nil, Nil, Nil, Nil)]
      ensures lists == old(lists)
    {
      n := |nodes|;
      nodes := nodes + [Node(x, Nil, Nil, Nil, Nil)];
    }

    /** LinkedList's constructor (SkipList.h:107-115): two new nodes, head
        minVal and tail maxVal, linked to each other and nothing else, and a
        new level record whose head is the first and whose up and down are
        null. */
    method NewList(minVal: int, maxVal: int) returns (l: nat)
      modifies this
      ensures var n := |old(nodes)|;
        nodes == old(nodes) + [Node(minVal, At(n + 1), Nil, Nil, Nil), Node(maxVal, Nil, At(n), Nil, Nil)] &&
        l == |old(lists)| && lists == old(lists) + [LinkedList(n, Nil, Nil)] &&
        Chain(nodes, [n, n + 1]) && Values(nodes, [n, n + 1]) == [minVal, maxVal]
    {
      var head := NewNode(minVal);
      var tail := NewNode(maxVal);
      nodes := nodes[head := nodes[head].(next := At(tail))];
      nodes := nodes[tail := nodes[tail].(prev := At(head))];
      l := |lists|;
      lists := lists + [LinkedList(head, Nil, Nil)];
    }

    /** LinkedList::search (SkipList.h:135-142): from location, step to the
        next node while it holds a value at most x. From a node of a level
        it lands where the forward scan of the level's values lands; from
        null it gives null. */
    method Search(location: Ref, x: int, ghost sp: seq<nat>, ghost k: nat) returns (r: Ref)
      requires location.At? ==> Chain(nodes, sp) && k < |sp| && location.addr == sp[k]
      ensures location == Nil ==> r == Nil
      ensures location.At? ==> r == At(sp[ScanIndex(Values(nodes, sp), k, x)])
    {
      ghost var v := Values(nodes, sp);
      r := location;
      ghost var j := k;
      while r.At? && nodes[r.addr].next.At? && nodes[nodes[r.addr].next.addr].data <= x
        invariant location == Nil ==> r == Nil
        invariant location.At? ==> k <= j < |sp| && r == At(sp[j]) && ScanIndex(v, j, x) == ScanIndex(v, k, x)
        decreases |sp| - j
      {
        assert j + 1 < |sp|;
        r := nodes[r.addr].next;
        j := j + 1;
      }
    }

    /** LinkedList::insert (SkipList.h:147-159): when location and its next
        exist and location's value is below x and its next's at least x, a
        new node holding x is spliced in between them and returned (the level
        it then forms is SpliceChain's); otherwise nothing changes and null is
        returned. */
    method Insert(location: Ref, x: int, ghost sp: seq<nat>, ghost k: nat) returns (r: Ref)
      requires location.At? ==> Chain(nodes, sp) && k < |sp| && location.addr == sp[k]
      modifies this
      ensures lists == old(lists)
      ensures var v := Values(old(nodes), sp);
        if location.At? && k + 1 < |sp| && v[k] < x <= v[k + 1] then
          r == At(|old(nodes)|) && nodes == Spliced(old(nodes), sp[k], sp[k + 1], x)
        else
          r == Nil && nodes == old(nodes)
    {
      if location.At? && nodes[location.addr].next.At? {
        assert k + 1 < |sp| && nodes[location.addr].next == At(sp[k + 1]);
      }
      if location.At? && nodes[location.addr].next.At? && nodes[location.addr].data < x
        && x <= nodes[nodes[location.addr].next.addr].data
      {
        var a := location.addr;
        var c := nodes[a].next.addr;
        var n := NewNode(x);
        nodes := nodes[n := nodes[n].(next := At(c), prev := At(a))];
        nodes := nodes[c := nodes[c].(prev := At(n))];
        nodes := nodes[a := nodes[a].(next := At(n))];
        r := At(n);
        assert nodes == Spliced(old(nodes), a, c, x);
      } else {
        r := Nil;
      }
    }
  }
}
