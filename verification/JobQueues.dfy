/** The linked list behind the job scheduler. */
module JobQueues {
  import opened Words
  import opened Scheduler

  class JobNode {
    const job: Job
    var next: JobNode?

    constructor (job: Job)
      ensures this.job == job && next == null
    {
      this.job := job;
      next := null;
    }
  }

  function JobsOf(nodes: seq<JobNode>): (s: seq<Job>)
    ensures |s| == |nodes|
  {
    if nodes == [] then [] else [nodes[0].job] + JobsOf(nodes[1..])
  }

  lemma {:induction false} JobsOfSnoc(nodes: seq<JobNode>, node: JobNode)
    ensures JobsOf(nodes + [node]) == JobsOf(nodes) + [node.job]
  {
    if nodes != [] {
      assert (nodes + [node])[1..] == nodes[1..] + [node];
      JobsOfSnoc(nodes[1..], node);
    }
  }

  class JobQueueHead {
    var size: nat
    var firstNode: JobNode?
    var lastNode: JobNode?

    ghost var spine: seq<JobNode>   // the nodes from firstNode to lastNode

    ghost predicate Valid()
      reads this, spine
    {
      && size == |spine|
      && firstNode == (if spine == [] then null else spine[0])
      && lastNode == (if spine == [] then null else spine[|spine| - 1])
      && (forall i :: 0 <= i < |spine| - 1 ==> spine[i].next == spine[i + 1])
      && (spine != [] ==> spine[|spine| - 1].next == null)
      && (forall i, j :: 0 <= i < j < |spine| ==> spine[i] != spine[j])
    }

    /** The waiting jobs, oldest first. */
    ghost function Contents(): (s: seq<Job>)
      reads this
    {
      JobsOf(spine)
    }

    constructor ()
      ensures Valid() && Contents() == [] && spine == []
    {
      size, firstNode, lastNode, spine := 0, null, null, [];
    }

    /** The scheduler's Insert step on the real list. */
    method InsertInQueue(job: Job)
      requires Valid()
      modifies this, spine
      ensures Valid() && Contents() == old(Contents()) + [job]
      ensures exists node :: fresh(node) && spine == old(spine) + [node]
    {
      var node := new JobNode(job);
      if size == 0 {
        firstNode := node;
        lastNode := firstNode;
      } else {
        lastNode.next := node;
        lastNode := lastNode.next;
      }
      JobsOfSnoc(spine, node);
      spine := spine + [node];
      size := size + 1;
    }

    /** The scheduler's Pop step on the real list; an empty list gives no job. */
    method PopFromQueue() returns (job: Option<Job>)
      requires Valid()
      modifies this
      ensures Valid()
      ensures job == if old(Contents()) == [] then None else Some(old(Contents())[0])
      ensures Contents() == if old(Contents()) == [] then [] else old(Contents())[1..]
      ensures old(spine) != [] ==> spine == old(spine)[1..]
    {
      if size == 0 {
        return None;
      }
      var retNode := firstNode;
      if size == 1 {
        firstNode := null;
        lastNode := null;
      } else {
        firstNode := retNode.next;
      }
      spine := spine[1..];
      size := size - 1;
      job := Some(retNode.job);
    }
  }
}
