/** The buffered linked list that collects join results. */
module ResultLists {
  import opened Bags
  import opened JoinSpec

  /** Pairs per node: a buffer of 128000 bytes in units of 16-byte tuples. */
  const MAX_TUPLES: nat := 128000 / 16

  /** The nodes that `n` pairs take: `n / MAX_TUPLES`, rounded up. */
  function NodeCount(n: nat): nat {
    (n + MAX_TUPLES - 1) / MAX_TUPLES
  }

  /** A node takes over a filled buffer; the pairs in it are never written again. */
  class ResultNode {
    const tuples: seq<RowPair>
    var nextNode: ResultNode?

    constructor (tuples: seq<RowPair>)
      ensures this.tuples == tuples && nextNode == null
    {
      this.tuples, nextNode := tuples, null;
    }
  }

  class HeadResult {
    var firstNode: ResultNode?
    var tail: ResultNode?
    var numbOfNodes: nat
    var totalSize: nat
    var buffTuple: array?<RowPair>
    var buffSize: nat

    ghost var spine: seq<ResultNode>   // the nodes from firstNode to tail
    ghost var Repr: set<object>

    /** Well-formed: the links thread the spine, the counters count it, and the buffer, while
        there is one, belongs to no node. */
    ghost predicate Valid()
      reads this, Repr
      ensures Valid() ==> this in Repr && totalSize == |Contents()|
    {
      && this in Repr
      && (forall i :: 0 <= i < |spine| ==> spine[i] in Repr && spine[i].tuples != [])
      && Linked()
      && (buffTuple != null ==> buffTuple in Repr && buffTuple.Length == MAX_TUPLES && buffSize <= MAX_TUPLES)
      && totalSize == |Contents()|
    }

    ghost predicate Linked()
      reads `numbOfNodes, `spine, `firstNode, `tail, spine
    {
      && |spine| == numbOfNodes
      && Segment(spine)
      && firstNode == (if spine == [] then null else spine[0])
      && tail == (if spine == [] then null else spine[|spine| - 1])
    }

    /** Everything pushed, in order. */
    ghost function Contents(): (s: seq<RowPair>)
      reads this, if buffTuple == null then {} else {buffTuple}
    {
      Stored(spine) + (if buffTuple != null && buffSize <= buffTuple.Length then buffTuple[..buffSize] else [])
    }

    ghost predicate AllFull()
      reads this
    {
      forall i :: 0 <= i < |spine| ==> |spine[i].tuples| == MAX_TUPLES
    }

    /** Still accepting pushes: every node is full, and nodes exist only behind a used buffer. */
    ghost predicate Open()
      reads this
    {
      && buffTuple != null
      && AllFull()
      && (spine != [] ==> buffSize > 0)
    }

    /** Finished: all pairs sit in nodes, and every node but the last is full. */
    ghost predicate Packed()
      reads this
    {
      && (forall i :: 0 <= i < |spine| ==> 0 < |spine[i].tuples| <= MAX_TUPLES)
      && (forall i :: 0 <= i < |spine| - 1 ==> |spine[i].tuples| == MAX_TUPLES)
      && (buffTuple != null ==> spine == [] && buffSize == 0)
    }

    constructor Buffered()
      ensures Valid() && fresh(Repr) && Open() && Contents() == []
    {
      firstNode, tail, numbOfNodes, totalSize := null, null, 0, 0;
      var buffer := new RowPair[MAX_TUPLES];
      buffTuple, buffSize := buffer, 0;
      spine := [];
      Repr := {this, buffer};
    }

    constructor NoBuff()
      ensures Valid() && fresh(Repr) && buffTuple == null && Contents() == [] && numbOfNodes == 0
    {
      firstNode, tail, numbOfNodes, totalSize := null, null, 0, 0;
      buffTuple, buffSize := null, 0;
      spine := [];
      Repr := {this};
    }

    /** Hangs a linked run of nodes on the tail. */
    method Attach(first: ResultNode, last: ResultNode, count: nat, ghost nodes: seq<ResultNode>)
      requires Linked() && Segment(nodes)
      requires forall i, j :: 0 <= i < |spine| && 0 <= j < |nodes| ==> spine[i] != nodes[j]
      requires count == |nodes| > 0 && first == nodes[0] && last == nodes[count - 1]
      modifies `firstNode, `tail, `numbOfNodes, `spine, tail
      ensures Linked() && spine == old(spine) + nodes && numbOfNodes == old(numbOfNodes) + count
    {
      if numbOfNodes == 0 {
        firstNode := first;
      } else {
        tail.nextNode := first;
      }
      tail := last;
      numbOfNodes := numbOfNodes + count;
      spine := spine + nodes;
    }

    /** The buffer, with what it holds, becomes the new last node. */
    method Flush()
      requires Valid() && buffTuple != null && buffSize > 0
      modifies Repr
      ensures Valid() && fresh(Repr - old(Repr)) && buffTuple == null
      ensures old(Open()) ==> Packed()
      ensures old(Open() && buffSize == MAX_TUPLES) ==> AllFull()
      ensures totalSize == old(totalSize) && Contents() == old(Contents())
    {
      hide HeadResult.Valid, HeadResult.Contents, HeadResult.Linked, Stored, Segment;
      ghost var node := SaveBuffer();
    }

    /** The same, told by the nodes. */
    method SaveBuffer() returns (ghost saved: ResultNode)
      requires Valid() && buffTuple != null && buffSize > 0
      modifies Repr
      ensures Valid() && fresh(Repr - old(Repr)) && buffTuple == null && 0 < old(buffSize) <= MAX_TUPLES
      ensures spine == old(spine) + [saved] && |saved.tuples| == old(buffSize)
      ensures totalSize == old(totalSize) && Contents() == old(Contents())
    {
      hide Segment, NoDuplicates, Stored;
      var node := new ResultNode(buffTuple[..buffSize]);
      saved := node;
      OneNode(node);
      StoredSnoc(spine, node);
      buffTuple := null;
      Repr := Repr + {node};
      hide HeadResult.Linked;
      Attach(node, node, 1, [node]);
    }

    method NewBuffer()
      requires Valid() && buffTuple == null
      modifies this`buffTuple, this`buffSize, this`Repr
      ensures Valid() && buffTuple != null && buffSize == 0
      ensures fresh(Repr - old(Repr)) && fresh(buffTuple) && Contents() == old(Contents())
    {
      hide Stored, Segment, NoDuplicates;
      buffTuple, buffSize := new RowPair[MAX_TUPLES], 0;
      Repr := Repr + {buffTuple};
    }

    /** Writes into a buffer that has room. */
    method Store(t: RowPair)
      requires Valid() && buffTuple != null && buffSize < MAX_TUPLES
      modifies this`buffSize, this`totalSize, buffTuple
      ensures Valid() && buffSize == old(buffSize) + 1
      ensures Contents() == old(Contents()) + [t]
    {
      buffTuple[buffSize] := t;
      buffSize := buffSize + 1;
      totalSize := totalSize + 1;
      assert buffTuple[..buffSize] == old(buffTuple[..buffSize]) + [t];
    }

    /** O(1) push: into the buffer, after a full one has become a node. */
    method Push(t: RowPair)
      requires Valid() && Open()
      modifies Repr
      ensures Valid() && Open() && fresh(Repr - old(Repr))
      ensures Contents() == old(Contents()) + [t]
    {
      if buffSize == MAX_TUPLES {
        Flush();
        NewBuffer();
      }
      Store(t);
    }

    /** The last, partly filled buffer is saved in a node. */
    method CleanListHead()
      requires Valid() && Open()
      modifies Repr
      ensures Valid() && Packed() && fresh(Repr - old(Repr))
      ensures Contents() == old(Contents()) == Stored(spine)
      ensures numbOfNodes == NodeCount(totalSize)
    {
      if buffSize != 0 {
        Flush();
      }
      PackedCount(spine);
    }

    /** The pairs counted node by node. */
    method CountSizeOfList() returns (numbOfResults: nat)
      requires Valid() && (buffTuple != null ==> buffSize == 0)
      ensures numbOfResults == totalSize
    {
      numbOfResults := 0;
      if numbOfNodes == 0 {
        return;
      }
      var currentNode := firstNode;
      for whichNode := 0 to numbOfNodes
        invariant currentNode == if whichNode < |spine| then spine[whichNode] else null
        invariant numbOfResults == |Stored(spine[..whichNode])|
      {
        StoredSnoc(spine[..whichNode], spine[whichNode]);
        assert spine[..whichNode + 1] == spine[..whichNode] + [spine[whichNode]];
        numbOfResults := numbOfResults + |currentNode.tuples|;
        currentNode := currentNode.nextNode;
      }
      assert spine[..numbOfNodes] == spine;
    }
  }

  /** The links run through `nodes` in order and end there. */
  ghost predicate Segment(nodes: seq<ResultNode>)
    reads nodes
  {
    && NoDuplicates(nodes)
    && (nodes != [] ==> nodes[|nodes| - 1].nextNode == null)
    && forall i :: 0 <= i < |nodes| - 1 ==> nodes[i].nextNode == nodes[i + 1]
  }

  /** The pairs of a run of nodes. */
  ghost function Stored(nodes: seq<ResultNode>): seq<RowPair> {
    if nodes == [] then [] else nodes[0].tuples + Stored(nodes[1..])
  }

  lemma OneNode(node: ResultNode)
    requires node.nextNode == null
    ensures Segment([node])
  {
  }

  lemma {:induction false} StoredAppend(a: seq<ResultNode>, b: seq<ResultNode>)
    ensures Stored(a + b) == Stored(a) + Stored(b)
  {
    if a == [] {
      assert a + b == b;
    } else {
      assert (a + b)[1..] == a[1..] + b;
      StoredAppend(a[1..], b);
    }
  }

  lemma StoredSnoc(a: seq<ResultNode>, node: ResultNode)
    ensures Stored(a + [node]) == Stored(a) + node.tuples
  {
    StoredAppend(a, [node]);
    assert Stored([node]) == node.tuples + Stored([]);
  }

  /** Full nodes followed by one non-empty last node: the node count is the pair count divided
      by the capacity, rounded up. */
  lemma {:induction false} PackedCount(nodes: seq<ResultNode>)
    requires forall i :: 0 <= i < |nodes| ==> 0 < |nodes[i].tuples| <= MAX_TUPLES
    requires forall i :: 0 <= i < |nodes| - 1 ==> |nodes[i].tuples| == MAX_TUPLES
    ensures |nodes| == NodeCount(|Stored(nodes)|)
  {
    if |nodes| == 1 {
      assert Stored(nodes) == nodes[0].tuples;
    } else if |nodes| > 1 {
      var n, rest := |Stored(nodes)|, |Stored(nodes[1..])|;
      assert n == MAX_TUPLES + rest;
      PackedCount(nodes[1..]);
      assert (n + 7999) / 8000 == 1 + (rest + 7999) / 8000;
    }
  }

  /** Appends a finished list to another in constant time. The nodes change owner. */
  method ConnectResultList(finalResult: HeadResult, joinedList: HeadResult)
    requires finalResult.Valid() && finalResult.buffTuple == null
    requires joinedList.Valid() && joinedList.Packed()
    requires finalResult.Repr !! joinedList.Repr
    modifies finalResult.Repr
    ensures finalResult.Valid() && finalResult.buffTuple == null
    ensures finalResult.Contents() == old(finalResult.Contents()) + old(joinedList.Contents())
    ensures finalResult.numbOfNodes == old(finalResult.numbOfNodes) + joinedList.numbOfNodes
    ensures finalResult.Repr <= old(finalResult.Repr) + joinedList.Repr
  {
    hide Stored, NoDuplicates, Segment, HeadResult.Linked, HeadResult.Packed;
    ghost var before, added := finalResult.spine, joinedList.spine;
    StoredAppend(before, added);
    ReadyToConnect(finalResult, joinedList);
    if joinedList.totalSize != 0 {
      finalResult.Attach(joinedList.firstNode, joinedList.tail, joinedList.numbOfNodes, added);
      finalResult.totalSize := finalResult.totalSize + joinedList.totalSize;
      finalResult.Repr := finalResult.Repr + joinedList.Repr;
    }
  }

  /** The finished list's nodes are a run of their own, empty only without pairs. */
  lemma ReadyToConnect(finalResult: HeadResult, joinedList: HeadResult)
    requires finalResult.Valid() && finalResult.buffTuple == null && joinedList.Valid() && joinedList.Packed()
    requires finalResult.Repr !! joinedList.Repr
    ensures Segment(joinedList.spine) && joinedList.numbOfNodes == |joinedList.spine|
    ensures joinedList.Contents() == Stored(joinedList.spine) && finalResult.Contents() == Stored(finalResult.spine)
    ensures joinedList.spine == [] <==> joinedList.totalSize == 0
    ensures joinedList.spine != [] ==>
              joinedList.firstNode == joinedList.spine[0] && joinedList.tail == joinedList.spine[|joinedList.spine| - 1]
    ensures forall i, j :: 0 <= i < |finalResult.spine| && 0 <= j < |joinedList.spine| ==>
              finalResult.spine[i] != joinedList.spine[j]
    ensures forall j :: 0 <= j < |joinedList.spine| ==>
              joinedList.spine[j] in joinedList.Repr && joinedList.spine[j].tuples != []
    ensures finalResult.tail != null ==> finalResult.tail in finalResult.Repr
  {
  }
}
