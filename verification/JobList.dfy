/** The linked job list of src/nm/replication_worker.c, which is the queue of the Replication protocol. */
module JobList {
  import opened Replication

  class JobNode {
    const job: Job
    var next: JobNode?

    constructor (job: Job)
      ensures this.job == job && next == null
    {
      this.job := job;
      next := null;
    }
  }

  function Successor(nodes: seq<JobNode>, i: nat): JobNode?
    requires i < |nodes|
  {
    if i + 1 < |nodes| then nodes[i + 1] else null
  }

  ghost function Jobs(nodes: seq<JobNode>): (q: seq<Job>)
    ensures |q| == |nodes| && forall i :: 0 <= i < |nodes| ==> q[i] == nodes[i].job
  {
    seq(|nodes|, i requires 0 <= i < |nodes| => nodes[i].job)
  }

  /** Head, tail and count of the Name Server's job list; `nodes` is the list in order. */
  class JobQueue {
    var head: JobNode?
    var tail: JobNode?
    var count: nat
    ghost var nodes: seq<JobNode>

    ghost predicate Valid()
      reads this, nodes
    {
      && count == |nodes| <= MAX_QUEUE_SIZE
      && (head == if nodes == [] then null else nodes[0])
      && (tail == if nodes == [] then null else nodes[|nodes| - 1])
      && (forall i, j :: 0 <= i < j < |nodes| ==> nodes[i] != nodes[j])
      && (forall i :: 0 <= i < |nodes| ==> nodes[i].next == Successor(nodes, i))
    }

    ghost function View(): seq<Job>
      reads this`nodes
    {
      Jobs(nodes)
    }

    constructor ()
      ensures Valid() && View() == [] && fresh(nodes)
    {
      head, tail, count, nodes := null, null, 0, [];
    }

    /** replication_worker_queue */
    method Queue(job: Job) returns (ok: bool)
      requires Valid()
      modifies this, nodes
      ensures Valid() && View() == Enqueue(old(View()), job)
      ensures ok <==> |old(View())| < MAX_QUEUE_SIZE
      ensures fresh(set n | n in nodes && n !in old(nodes))
    {
      if count >= MAX_QUEUE_SIZE {
        return false;
      }
      var node := new JobNode(job);
      if tail != null {
        tail.next := node;
      } else {
        head := node;
      }
      tail := node;
      count := count + 1;
      ghost var all := nodes;
      nodes := all + [node];
      forall i | 0 <= i < |nodes| ensures nodes[i].next == Successor(nodes, i) {
        if i + 1 < |all| {
          assert old(all[i].next) == Successor(all, i);
        }
      }
      return true;
    }

    /** The worker's dequeue under the queue mutex. */
    method Take() returns (job: Job)
      requires Valid() && View() != []
      modifies this
      ensures Valid() && job == old(View())[0] && View() == old(View())[1..]
    {
      var node := head;
      job := node.job;
      assert node.next == Successor(nodes, 0);
      head := node.next;
      if head == null {
        tail := null;
      }
      count := count - 1;
      ghost var all := nodes;
      nodes := all[1..];
      forall i | 0 <= i < |nodes| ensures nodes[i].next == Successor(nodes, i) {
        assert nodes[i] == all[i + 1] && all[i + 1].next == Successor(all, i + 1);
      }
    }
  }
}
