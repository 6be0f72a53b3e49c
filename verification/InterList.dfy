/** Intermediate results: a linked list of tables of row ids. */
module InterList {
  import opened Bags
  import opened JoinSpec
  import opened ResultLists

  /** The first position of `x`, as a scan from the left finds it. */
  function IndexOf(s: seq<nat>, x: nat): (i: nat)
    requires x in s
    ensures i < |s| && s[i] == x
    ensures forall j :: 0 <= j < i ==> s[j] != x
  {
    if s[0] == x then 0 else 1 + IndexOf(s[1..], x)
  }

  /** One intermediate: for each joined relation a column of row ids. Its arrays are built once
      and replaced, never changed. */
  datatype Inter = Inter(joinedRels: seq<nat>, numbOfRows: nat, rowIds: seq<seq<nat>>) {
    ghost predicate Valid() {
      && NoDuplicates(joinedRels)
      && |rowIds| == |joinedRels|
      && forall c :: 0 <= c < |rowIds| ==> |rowIds[c]| == numbOfRows
    }

    function Column(rel: nat): (c: seq<nat>)
      requires Valid() && rel in joinedRels
      ensures |c| == numbOfRows
    {
      rowIds[IndexOf(joinedRels, rel)]
    }

    /** Row `k`, as an assignment of row ids to relations. */
    ghost function Row(k: nat): map<nat, nat>
      requires Valid() && k < numbOfRows
    {
      map r | r in joinedRels :: Column(r)[k]
    }

    ghost function Rows(): (rows: seq<map<nat, nat>>)
      requires Valid()
      ensures |rows| == numbOfRows
    {
      seq(numbOfRows, k requires 0 <= k < numbOfRows => Row(k))
    }
  }

  lemma IndexOfUnique(s: seq<nat>, c: nat)
    requires NoDuplicates(s) && c < |s|
    ensures IndexOf(s, s[c]) == c
  {
  }

  class NodeInter {
    var data: Inter
    var next: NodeInter?

    constructor (data: Inter)
      ensures this.data == data && next == null
    {
      this.data, next := data, null;
    }
  }

  class HeadInter {
    var numOfIntermediates: nat
    var start: NodeInter?
    ghost var spine: seq<NodeInter>

    /** The links thread the spine, and the counter counts it. */
    ghost predicate Valid()
      reads this, spine
    {
      && |spine| == numOfIntermediates
      && NoDuplicates(spine)
      && start == (if spine == [] then null else spine[0])
      && (spine != [] ==> spine[|spine| - 1].next == null)
      && forall i :: 0 <= i < |spine| - 1 ==> spine[i].next == spine[i + 1]
    }

    ghost function Nodes(): set<NodeInter>
      reads this
    {
      set n | n in spine
    }

    /** The intermediates in list order. */
    ghost function Contents(): (s: seq<Inter>)
      reads this, spine
      ensures |s| == |spine|
      ensures forall i :: 0 <= i < |s| ==> s[i] == spine[i].data
    {
      seq(|spine|, i requires 0 <= i < |spine| reads this, spine => spine[i].data)
    }

    constructor ()
      ensures Valid() && spine == [] && Contents() == []
    {
      numOfIntermediates, start, spine := 0, null, [];
    }

    /** The node holding `rel`, if there is one. */
    method FindNode(rel: nat) returns (node: NodeInter?, ghost at: nat)
      requires Valid()
      ensures node == null ==> forall i :: 0 <= i < |spine| ==> rel !in spine[i].data.joinedRels
      ensures node != null ==> at < |spine| && node == spine[at] && rel in node.data.joinedRels
    {
      node, at := start, 0;
      while node != null
        invariant at <= |spine| && node == if at < |spine| then spine[at] else null
        invariant forall i :: 0 <= i < at ==> rel !in spine[i].data.joinedRels
        decreases |spine| - at
      {
        if rel in node.data.joinedRels {
          return;
        }
        node, at := node.next, at + 1;
      }
    }

    /** Appends an intermediate, whose place is found by walking to the last node. */
    method PushInter(data: Inter)
      requires Valid()
      modifies this, Nodes()
      ensures Valid() && Contents() == old(Contents()) + [data]
      ensures |spine| == |old(spine)| + 1 && spine[..|old(spine)|] == old(spine) && fresh(spine[|old(spine)|])
    {
      var node := new NodeInter(data);
      if numOfIntermediates == 0 {
        start := node;
      } else {
        var finalNode := start;
        for whichNode := 0 to numOfIntermediates - 1
          invariant finalNode == spine[whichNode]
        {
          finalNode := finalNode.next;
        }
        finalNode.next := node;
      }
      spine := spine + [node];
      numOfIntermediates := numOfIntermediates + 1;
    }

    /** Replaces the data of one node. */
    method UpdateInter(node: NodeInter, data: Inter, ghost at: nat)
      requires Valid() && at < |spine| && node == spine[at]
      modifies node`data
      ensures Valid() && spine == old(spine) && node.data == data && Contents() == old(Contents())[at := data]
    {
      node.data := data;
    }

    /** The node that links to `node`, found by traversal. */
    method NodeBefore(node: NodeInter, ghost at: nat) returns (currentNode: NodeInter)
      requires Valid() && 0 < at < |spine| && node == spine[at]
      ensures currentNode == spine[at - 1]
    {
      currentNode := start;
      var whichNode := 0;
      while whichNode < numOfIntermediates - 1
        invariant 0 <= whichNode < at && currentNode == spine[whichNode]
        decreases numOfIntermediates - whichNode
      {
        assert currentNode.next == spine[whichNode + 1];
        if currentNode.next == node {
          break;
        }
        currentNode := currentNode.next;
        whichNode := whichNode + 1;
      }
    }

    /** Unlinks one node. */
    method DeleteInterNode(node: NodeInter, ghost at: nat)
      requires Valid() && at < |spine| && node == spine[at]
      modifies this, Nodes()
      ensures Valid() && spine == old(spine)[..at] + old(spine)[at + 1..]
      ensures Contents() == old(Contents())[..at] + old(Contents())[at + 1..]
    {
      hide NoDuplicates, HeadInter.Contents;
      LeaveOut(spine, at);
      var temp := node.next;
      if start == node {
        start := temp;
      } else {
        var currentNode := NodeBefore(node, at);
        currentNode.next := temp;
      }
      spine := spine[..at] + spine[at + 1..];
      numOfIntermediates := numOfIntermediates - 1;
    }
  }

  /** A list of distinct nodes without one of them. */
  lemma LeaveOut(nodes: seq<NodeInter>, at: nat)
    requires NoDuplicates(nodes) && at < |nodes|
    ensures NoDuplicates(nodes[..at] + nodes[at + 1..])
    ensures nodes[0] == nodes[at] <==> at == 0
    ensures at > 0 ==> forall k :: 0 <= k < |nodes| && k != at - 1 ==> nodes[k] != nodes[at - 1]
  {
  }

  /* ----- building new intermediates ----- */

  /** Row `k` picks an old row and carries on with its relations. */
  lemma SelectedRow(inter: Inter, data: Inter, k: nat, from: nat)
    requires inter.Valid() && data.Valid() && k < data.numbOfRows && from < inter.numbOfRows
    requires data.joinedRels == inter.joinedRels
    requires forall c :: 0 <= c < |inter.rowIds| ==> data.rowIds[c][k] == inter.rowIds[c][from]
    ensures data.Row(k) == inter.Row(from)
  {
  }

  /** Keeps the rows at the given positions (a filter's or a self-join's survivors). */
  method SelectRows(inter: Inter, joinRows: seq<nat>) returns (data: Inter)
    requires inter.Valid()
    requires forall k :: 0 <= k < |joinRows| ==> joinRows[k] < inter.numbOfRows
    ensures data.Valid() && data.joinedRels == inter.joinedRels && data.numbOfRows == |joinRows|
    ensures forall k :: 0 <= k < |joinRows| ==> data.Row(k) == inter.Row(joinRows[k])
  {
    var cols, rows := |inter.joinedRels|, |joinRows|;
    var newRowIds := new nat[cols, rows];
    for whichRow := 0 to rows
      invariant forall c, k :: 0 <= c < cols && 0 <= k < whichRow ==> newRowIds[c, k] == inter.rowIds[c][joinRows[k]]
    {
      for whichCol := 0 to cols
        invariant forall c, k :: 0 <= c < cols && 0 <= k < whichRow ==> newRowIds[c, k] == inter.rowIds[c][joinRows[k]]
        invariant forall c :: 0 <= c < whichCol ==> newRowIds[c, whichRow] == inter.rowIds[c][joinRows[whichRow]]
      {
        newRowIds[whichCol, whichRow] := inter.rowIds[whichCol][joinRows[whichRow]];
      }
    }
    var columns := Columns(newRowIds);
    data := Inter(inter.joinedRels, rows, columns);
    forall k | 0 <= k < rows
      ensures data.Row(k) == inter.Row(joinRows[k])
    {
      SelectedRow(inter, data, k, joinRows[k]);
    }
  }

  /** A filled two-dimensional array as the columns of an intermediate. */
  method Columns(a: array2<nat>) returns (columns: seq<seq<nat>>)
    ensures |columns| == a.Length0
    ensures forall c :: 0 <= c < a.Length0 ==> |columns[c]| == a.Length1
    ensures forall c, k :: 0 <= c < a.Length0 && 0 <= k < a.Length1 ==> columns[c][k] == a[c, k]
  {
    columns := [];
    for c := 0 to a.Length0
      invariant |columns| == c
      invariant forall d :: 0 <= d < c ==> |columns[d]| == a.Length1
      invariant forall d, k :: 0 <= d < c && 0 <= k < a.Length1 ==> columns[d][k] == a[d, k]
    {
      var column := seq(a.Length1, k requires 0 <= k < a.Length1 && c < a.Length0 reads a => a[c, k]);
      columns := columns + [column];
    }
  }

  /** The pairs of a result list lie in its nodes one after the other. */
  lemma {:induction false} StoredAt(nodes: seq<ResultNode>, w: nat, i: nat)
    requires w < |nodes| && i < |nodes[w].tuples|
    ensures |Stored(nodes[..w])| + i < |Stored(nodes)|
    ensures Stored(nodes)[|Stored(nodes[..w])| + i] == nodes[w].tuples[i]
  {
    StoredAppend(nodes[..w], nodes[w..]);
    assert nodes == nodes[..w] + nodes[w..];
    assert Stored(nodes[w..]) == nodes[w].tuples + Stored(nodes[w..][1..]);
  }

  /** Where a column of the new intermediate comes from: the row id in the pair itself (a
      relation that is new), or an old column at that row. */
  datatype Source = RowId | Through(column: seq<nat>) {
    predicate Has(row: nat) {
      RowId? || row < |column|
    }

    function At(row: nat): nat
      requires Has(row)
    {
      if RowId? then row else column[row]
    }
  }

  /** The component of a pair that comes from the first side of the join: the indexed side's
      row unless the sides were switched. */
  function First(p: RowPair, switched: nat): nat {
    if switched == 0 then p.rowR else p.rowS
  }

  function Second(p: RowPair, switched: nat): nat {
    if switched == 0 then p.rowS else p.rowR
  }

  /** The columns to fill: those of the first side, then those of the second. */
  datatype Plan = Plan(left: seq<Source>, right: seq<Source>, switched: nat) {
    function Cols(): nat {
      |left| + |right|
    }

    predicate Fits(p: RowPair) {
      && (forall c :: 0 <= c < |left| ==> left[c].Has(First(p, switched)))
      && (forall c :: 0 <= c < |right| ==> right[c].Has(Second(p, switched)))
    }

    /** The entry of column `c` for one pair. */
    function Cell(c: nat, p: RowPair): nat
      requires c < Cols() && Fits(p)
    {
      if c < |left| then left[c].At(First(p, switched)) else right[c - |left|].At(Second(p, switched))
    }
  }

  /** The first `n` pairs have been entered. */
  ghost predicate Entered(a: array2<nat>, plan: Plan, pairs: seq<RowPair>, n: nat)
    requires a.Length0 == plan.Cols() && n <= a.Length1 == |pairs|
    requires forall k :: 0 <= k < |pairs| ==> plan.Fits(pairs[k])
    reads a
  {
    forall c, k :: 0 <= c < a.Length0 && 0 <= k < n ==> a[c, k] == plan.Cell(c, pairs[k])
  }

  /** Walks the result list once and enters every pair in every column. */
  method FillFromResults(head: HeadResult, plan: Plan, ghost pairs: seq<RowPair>) returns (columns: seq<seq<nat>>)
    requires head.Valid() && head.buffTuple == null && pairs == head.Contents()
    requires forall k :: 0 <= k < |pairs| ==> plan.Fits(pairs[k])
    ensures |columns| == plan.Cols()
    ensures forall c :: 0 <= c < |columns| ==> |columns[c]| == |pairs|
    ensures forall c, k :: 0 <= c < |columns| && 0 <= k < |pairs| ==> columns[c][k] == plan.Cell(c, pairs[k])
  {
    hide Plan.Fits, Plan.Cell;
    var results := head.totalSize;
    var retArr := new nat[plan.Cols(), results];
    var currentNode := head.firstNode;
    var base := 0;
    for whichNode := 0 to head.numbOfNodes
      invariant currentNode == if whichNode < |head.spine| then head.spine[whichNode] else null
      invariant base == |Stored(head.spine[..whichNode])| <= results && Entered(retArr, plan, pairs, base)
    {
      NodeFits(head.spine, whichNode);
      FillFromNode(retArr, currentNode, base, plan, pairs, head.spine, whichNode);
      base := base + |currentNode.tuples|;
      currentNode := currentNode.nextNode;
    }
    assert head.spine[..head.numbOfNodes] == head.spine;
    columns := Columns(retArr);
  }

  lemma NodeFits(nodes: seq<ResultNode>, w: nat)
    requires w < |nodes|
    ensures |Stored(nodes[..w + 1])| == |Stored(nodes[..w])| + |nodes[w].tuples| <= |Stored(nodes)|
  {
    StoredSnoc(nodes[..w], nodes[w]);
    assert nodes[..w + 1] == nodes[..w] + [nodes[w]];
    StoredAppend(nodes[..w + 1], nodes[w + 1..]);
    assert nodes == nodes[..w + 1] + nodes[w + 1..];
  }

  /** The part of that walk inside one node. */
  method FillFromNode(retArr: array2<nat>, node: ResultNode, base: nat, plan: Plan,
                      ghost pairs: seq<RowPair>, ghost nodes: seq<ResultNode>, ghost w: nat)
    requires retArr.Length0 == plan.Cols() && retArr.Length1 == |pairs| && pairs == Stored(nodes)
    requires w < |nodes| && nodes[w] == node && base == |Stored(nodes[..w])|
    requires base + |node.tuples| <= |pairs|
    requires forall k :: 0 <= k < |pairs| ==> plan.Fits(pairs[k])
    requires Entered(retArr, plan, pairs, base)
    modifies retArr
    ensures Entered(retArr, plan, pairs, base + |node.tuples|)
  {
    hide Plan.Fits, Plan.Cell;
    for whichRes := 0 to |node.tuples|
      invariant Entered(retArr, plan, pairs, base + whichRes)
    {
      StoredAt(nodes, w, whichRes);
      FillRow(retArr, base + whichRes, node.tuples[whichRes], plan, pairs);
    }
  }

  /** One pair's entries. */
  method FillRow(retArr: array2<nat>, row: nat, p: RowPair, plan: Plan, ghost pairs: seq<RowPair>)
    requires retArr.Length0 == plan.Cols() && row < retArr.Length1 == |pairs| && pairs[row] == p
    requires forall k :: 0 <= k < |pairs| ==> plan.Fits(pairs[k])
    requires Entered(retArr, plan, pairs, row)
    modifies retArr
    ensures Entered(retArr, plan, pairs, row + 1)
  {
    hide Plan.Fits, Plan.Cell;
    for whichCol := 0 to plan.Cols()
      invariant Entered(retArr, plan, pairs, row)
      invariant forall c :: 0 <= c < whichCol ==> retArr[c, row] == plan.Cell(c, p)
    {
      retArr[whichCol, row] := plan.Cell(whichCol, p);
    }
  }

  /** Old columns as sources. */
  function Columned(inter: Inter): (sources: seq<Source>)
    ensures |sources| == |inter.rowIds|
    ensures forall c :: 0 <= c < |sources| ==> sources[c] == Through(inter.rowIds[c])
  {
    seq(|inter.rowIds|, c requires 0 <= c < |inter.rowIds| => Through(inter.rowIds[c]))
  }

  /** Two new relations: each pair becomes a row of two columns. */
  method ResultInter(head: HeadResult, rel1: nat, rel2: nat, switched: nat, ghost pairs: seq<RowPair>)
    returns (data: Inter)
    requires head.Valid() && head.buffTuple == null && pairs == head.Contents() && rel1 != rel2
    ensures data.Valid() && data.joinedRels == [rel1, rel2] && data.numbOfRows == |pairs|
    ensures forall k :: 0 <= k < |pairs| ==>
              data.Row(k) == map[rel1 := First(pairs[k], switched), rel2 := Second(pairs[k], switched)]
  {
    var rowIds := FillFromResults(head, Plan([RowId], [RowId], switched), pairs);
    data := Inter([rel1, rel2], head.totalSize, rowIds);
    IndexOfUnique(data.joinedRels, 0);
    IndexOfUnique(data.joinedRels, 1);
  }

  /** A new relation joins an intermediate: each pair extends the old row it names. */
  method ExtendInter(inter: Inter, head: HeadResult, addedRel: nat, switched: nat, ghost pairs: seq<RowPair>)
    returns (data: Inter)
    requires inter.Valid() && addedRel !in inter.joinedRels
    requires head.Valid() && head.buffTuple == null && pairs == head.Contents()
    requires forall k :: 0 <= k < |pairs| ==> First(pairs[k], switched) < inter.numbOfRows
    ensures data.Valid() && data.joinedRels == inter.joinedRels + [addedRel] && data.numbOfRows == |pairs|
    ensures forall k :: 0 <= k < |pairs| ==>
              data.Row(k) == inter.Row(First(pairs[k], switched))[addedRel := Second(pairs[k], switched)]
  {
    hide HeadResult.Valid, HeadResult.Contents;
    var rowIds := FillFromResults(head, Plan(Columned(inter), [RowId], switched), pairs);
    data := Inter(inter.joinedRels + [addedRel], head.totalSize, rowIds);
    MergedValid(inter, data, [addedRel]);
    hide Inter.Row, Inter.Valid;
    forall k | 0 <= k < |pairs|
      ensures data.Row(k) == inter.Row(First(pairs[k], switched))[addedRel := Second(pairs[k], switched)]
    {
      ExtendedRow(inter, data, k, First(pairs[k], switched), addedRel, Second(pairs[k], switched));
    }
  }

  /** The columns of one intermediate followed by as many as there are further relations. */
  lemma MergedValid(inter: Inter, data: Inter, more: seq<nat>)
    requires inter.Valid() && NoDuplicates(more)
    requires forall r :: r in inter.joinedRels ==> r !in more
    requires data.joinedRels == inter.joinedRels + more && |data.rowIds| == |data.joinedRels|
    requires forall c :: 0 <= c < |data.rowIds| ==> |data.rowIds[c]| == data.numbOfRows
    ensures data.Valid()
  {
    IndexOfAppend(inter.joinedRels, more);
  }

  lemma ExtendedRow(inter: Inter, data: Inter, k: nat, from: nat, rel: nat, row: nat)
    requires inter.Valid() && data.Valid() && k < data.numbOfRows && from < inter.numbOfRows
    requires rel !in inter.joinedRels && data.joinedRels == inter.joinedRels + [rel]
    requires forall c :: 0 <= c < |inter.rowIds| ==> data.rowIds[c][k] == inter.rowIds[c][from]
    requires data.rowIds[|inter.rowIds|][k] == row
    ensures data.Row(k) == inter.Row(from)[rel := row]
  {
    IndexOfAppend(inter.joinedRels, [rel]);
    hide IndexOf;
    forall r | r in data.joinedRels
      ensures data.Row(k)[r] == inter.Row(from)[rel := row][r]
    {
      if r != rel {
        assert r in inter.joinedRels;
      }
    }
  }

  lemma MergedRow(inter1: Inter, inter2: Inter, data: Inter, k: nat, a: nat, b: nat)
    requires inter1.Valid() && inter2.Valid() && data.Valid() && k < data.numbOfRows
    requires a < inter1.numbOfRows && b < inter2.numbOfRows
    requires forall r :: r in inter1.joinedRels ==> r !in inter2.joinedRels
    requires data.joinedRels == inter1.joinedRels + inter2.joinedRels
    requires forall c :: 0 <= c < |inter1.rowIds| ==> data.rowIds[c][k] == inter1.rowIds[c][a]
    requires forall c :: 0 <= c < |inter2.rowIds| ==> data.rowIds[|inter1.rowIds| + c][k] == inter2.rowIds[c][b]
    ensures data.Row(k) == inter1.Row(a) + inter2.Row(b)
  {
    hide NoDuplicates;
    forall r | r in data.joinedRels
      ensures data.Row(k)[r] == (inter1.Row(a) + inter2.Row(b))[r]
    {
      MergedCell(inter1, inter2, data, k, a, b, r);
    }
  }

  /** One column of a merged row. */
  lemma MergedCell(inter1: Inter, inter2: Inter, data: Inter, k: nat, a: nat, b: nat, r: nat)
    requires inter1.Valid() && inter2.Valid() && data.Valid() && k < data.numbOfRows
    requires a < inter1.numbOfRows && b < inter2.numbOfRows
    requires forall r :: r in inter1.joinedRels ==> r !in inter2.joinedRels
    requires data.joinedRels == inter1.joinedRels + inter2.joinedRels && r in data.joinedRels
    requires forall c :: 0 <= c < |inter1.rowIds| ==> data.rowIds[c][k] == inter1.rowIds[c][a]
    requires forall c :: 0 <= c < |inter2.rowIds| ==> data.rowIds[|inter1.rowIds| + c][k] == inter2.rowIds[c][b]
    ensures data.Column(r)[k] == if r in inter1.joinedRels then inter1.Column(r)[a] else inter2.Column(r)[b]
  {
    IndexOfAppend(inter1.joinedRels, inter2.joinedRels);
    hide IndexOf, NoDuplicates;
    if r in inter2.joinedRels {
      assert data.rowIds[|inter1.rowIds| + IndexOf(inter2.joinedRels, r)][k] == inter2.Column(r)[b];
    }
  }

  lemma IndexOfAppend(a: seq<nat>, b: seq<nat>)
    requires NoDuplicates(a) && NoDuplicates(b)
    requires forall x :: x in a ==> x !in b
    ensures NoDuplicates(a + b)
    ensures forall x :: x in a ==> IndexOf(a + b, x) == IndexOf(a, x)
    ensures forall x :: x in b ==> IndexOf(a + b, x) == |a| + IndexOf(b, x)
  {
    forall i, j | 0 <= i < j < |a + b|
      ensures (a + b)[i] != (a + b)[j]
    {
      if i < |a| <= j {
        assert a[i] in a && b[j - |a|] in b;
      }
    }
    forall x | x in a
      ensures IndexOf(a + b, x) == IndexOf(a, x)
    {
      IndexOfUnique(a + b, IndexOf(a, x));
    }
    forall x | x in b
      ensures IndexOf(a + b, x) == |a| + IndexOf(b, x)
    {
      IndexOfUnique(a + b, |a| + IndexOf(b, x));
    }
  }

  /** Two intermediates become one: each pair puts two old rows side by side. */
  method MergeInters(inter1: Inter, inter2: Inter, head: HeadResult, switched: nat, ghost pairs: seq<RowPair>)
    returns (data: Inter)
    requires inter1.Valid() && inter2.Valid()
    requires forall r :: r in inter1.joinedRels ==> r !in inter2.joinedRels
    requires head.Valid() && head.buffTuple == null && pairs == head.Contents()
    requires forall k :: 0 <= k < |pairs| ==>
               First(pairs[k], switched) < inter1.numbOfRows && Second(pairs[k], switched) < inter2.numbOfRows
    ensures data.Valid() && data.joinedRels == inter1.joinedRels + inter2.joinedRels && data.numbOfRows == |pairs|
    ensures forall k :: 0 <= k < |pairs| ==>
              data.Row(k) == inter1.Row(First(pairs[k], switched)) + inter2.Row(Second(pairs[k], switched))
  {
    hide HeadResult.Valid, HeadResult.Contents;
    var rowIds := FillFromResults(head, Plan(Columned(inter1), Columned(inter2), switched), pairs);
    data := Inter(inter1.joinedRels + inter2.joinedRels, head.totalSize, rowIds);
    MergedValid(inter1, data, inter2.joinedRels);
    hide Inter.Row, Inter.Valid;
    forall k | 0 <= k < |pairs|
      ensures data.Row(k) == inter1.Row(First(pairs[k], switched)) + inter2.Row(Second(pairs[k], switched))
    {
      MergedRow(inter1, inter2, data, k, First(pairs[k], switched), Second(pairs[k], switched));
    }
  }

  /** One new relation with the given rows. */
  method SingleInter(rel: nat, rows: seq<nat>) returns (data: Inter)
    ensures data.Valid() && data.joinedRels == [rel] && data.numbOfRows == |rows|
    ensures forall k :: 0 <= k < |rows| ==> data.Row(k) == map[rel := rows[k]]
  {
    var newRowIds := new nat[1, |rows|];
    for whichRow := 0 to |rows|
      invariant forall k :: 0 <= k < whichRow ==> newRowIds[0, k] == rows[k]
    {
      newRowIds[0, whichRow] := rows[whichRow];
    }
    var columns := Columns(newRowIds);
    data := Inter([rel], |rows|, columns);
  }
}
