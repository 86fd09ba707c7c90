/**
 * The Israeli queue object of IsraeliQueue.c: a class whose methods update
 * its node list, scorer list and thresholds in place. Every method is proved
 * against the value-level functions of module Affinity.
 */
module Queue {
  import opened Wrappers
  import opened Affinity

  /** The error codes the queue operations return. */
  datatype QueueError = Success | AllocFailed | BadParam

  class IsraeliQueue<T> {
    var nodes: seq<Node<T>>
    var scorers: seq<Scorer<T>>
    var compare: (T, T) -> int
    var friendshipThreshold: int
    var rivalryThreshold: int

    /** The queue as a value. */
    function State(): QueueState<T>
      reads this
    {
      QueueState(nodes, scorers, compare, friendshipThreshold, rivalryThreshold)
    }

    /** The queue's invariant: no node is over its jump or block quota. */
    ghost predicate Valid()
      reads this
    {
      WithinQuota(nodes)
    }

    /** IsraeliQueueCreate: an empty queue with a copy of the given scorers;
        the thresholds are stored as given, without validation. */
    constructor (scorers: seq<Scorer<T>>, compare: (T, T) -> int,
                 friendshipThreshold: int, rivalryThreshold: int)
      ensures State() == QueueState([], scorers, compare, friendshipThreshold, rivalryThreshold)
      ensures Valid()
    {
      this.nodes := [];
      this.scorers := scorers;
      this.compare := compare;
      this.friendshipThreshold := friendshipThreshold;
      this.rivalryThreshold := rivalryThreshold;
    }

    /** IsraeliQueueClone: a new queue with the same scorers and thresholds
        and a node-by-node copy of the list (same items, same counters). The
        original is not modified. */
    method Clone() returns (c: IsraeliQueue<T>)
      ensures fresh(c)
      ensures c.State() == State()
    {
      c := new IsraeliQueue(scorers, compare, friendshipThreshold, rivalryThreshold);
      var i := 0;
      while i < |nodes|
        invariant 0 <= i <= |nodes|
        invariant c.State() == State().(nodes := nodes[..i])
      {
        c.nodes := c.nodes + [Node(nodes[i].item, nodes[i].friendsCalledOver, nodes[i].rivalsBlocked)];
        i := i + 1;
        assert nodes[..i] == nodes[..i - 1] + [nodes[i - 1]];
      }
      assert nodes[..i] == nodes;
    }

    /** getFriendshipStatus: sums the scorer outputs in registration order and
        stops as soon as the running sum exceeds the friendship threshold.
        `called` is the number of scorers invoked: the first prefix that
        exceeds the threshold on FRIEND, every scorer otherwise. */
    method GetFriendshipStatus(a: T, b: T) returns (status: FriendStatus, ghost called: nat)
      ensures status == FriendshipStatus(scorers, friendshipThreshold, rivalryThreshold, a, b)
      ensures called <= |scorers|
      ensures status == Friend ==>
        1 <= called && ScoreSum(scorers, a, b, called) > friendshipThreshold &&
        forall k :: 1 <= k < called ==> ScoreSum(scorers, a, b, k) <= friendshipThreshold
      ensures status != Friend ==> called == |scorers|
    {
      var sum := 0;
      var i := 0;
      while i < |scorers|
        invariant 0 <= i <= |scorers|
        invariant sum == ScoreSum(scorers, a, b, i)
        invariant forall k :: 1 <= k <= i ==> ScoreSum(scorers, a, b, k) <= friendshipThreshold
      {
        sum := sum + scorers[i](a, b);
        i := i + 1;
        if sum > friendshipThreshold {
          assert 1 <= i <= |scorers| && ScoreSum(scorers, a, b, i) > friendshipThreshold;
          return Friend, i;
        }
      }
      // The source compares the float mean sum / count with the threshold;
      // with no scorers that mean is NaN and the comparison is false.
      if |scorers| > 0 && sum < rivalryThreshold * |scorers| {
        status := Rival;
      } else {
        status := Neutral;
      }
      called := i;
    }

    /** findFriendNotBlocked: one front-to-back scan keeping a friend
        candidate and a blocking rival; returns where the new node goes. */
    method FindFriendNotBlocked(item: T) returns (t: Target)
      ensures t == FindTarget(State(), item)
    {
      var friend: Option<nat> := None;
      var rival: Option<nat> := None;
      var last: Option<nat> := None;
      var i := 0;
      while i < |nodes|
        invariant 0 <= i <= |nodes|
        invariant Scan(friend, rival) == ScanUpTo(State(), item, i)
        invariant last == if i == 0 then None else Some(i - 1)
      {
        var status;
        ghost var called;
        status, called := GetFriendshipStatus(item, nodes[i].item);
        if status == Friend && nodes[i].friendsCalledOver < FRIEND_QUOTA && friend.None? {
          friend := Some(i);
        } else if status == Rival && nodes[i].rivalsBlocked < RIVAL_QUOTA && friend.Some? {
          friend := None;
          rival := Some(i);
        }
        last := Some(i);
        i := i + 1;
      }
      if friend.Some? {
        t := Target(friend, Friend);
      } else if rival.Some? {
        t := Target(rival, Rival);
      } else {
        t := Target(last, Neutral);
      }
    }

    /** NodeInsertAfter: links a fresh node behind the target (or makes it the
        head of an empty list) and bumps the target's counter for its status. */
    method NodeInsertAfter(t: Target, item: T)
      requires t.after.Some? ==> t.after.value < |nodes|
      requires t.after.None? ==> nodes == []
      modifies this
      ensures State() == old(State()).(nodes := InsertAfter(old(nodes), t, item))
    {
      match t.after
      case None =>
        nodes := [NewNode(item)];
      case Some(j) =>
        var target := nodes[j];
        if t.status == Friend {
          target := target.(friendsCalledOver := target.friendsCalledOver + 1);
        } else if t.status == Rival {
          target := target.(rivalsBlocked := target.rivalsBlocked + 1);
        }
        nodes := nodes[..j] + [target] + [NewNode(item)] + nodes[j + 1..];
    }

    /** IsraeliQueueEnqueue: place the item by the friend/rival rule. */
    method Enqueue(item: T)
      modifies this
      ensures State() == Enqueued(old(State()), item)
      ensures old(Valid()) ==> Valid()
    {
      var t := FindFriendNotBlocked(item);
      NodeInsertAfter(t, item);
      if old(Valid()) {
        EnqueuePreservesQuota(old(State()), item);
      }
    }

    /** IsraeliQueueAddFriendshipMeasure: append a scorer at the end of the
        list. Whether the reallocation succeeds is outside the model: on
        failure the queue is left as it was. */
    method AddFriendshipMeasure(f: Scorer<T>) returns (err: QueueError)
      modifies this
      ensures err == Success || err == AllocFailed
      ensures err == Success ==> State() == old(State()).(scorers := old(scorers) + [f])
      ensures err == AllocFailed ==> State() == old(State())
    {
      var grown: bool := *;
      if !grown {
        return AllocFailed;
      }
      scorers := scorers + [f];
      err := Success;
    }

    /** IsraeliQueueUpdateFriendshipThreshold: negative values are rejected. */
    method UpdateFriendshipThreshold(threshold: int) returns (err: QueueError)
      modifies this
      ensures err == if threshold < 0 then BadParam else Success
      ensures State() == if threshold < 0 then old(State()) else old(State()).(friendshipThreshold := threshold)
    {
      if threshold < 0 {
        return BadParam;
      }
      friendshipThreshold := threshold;
      err := Success;
    }

    /** IsraeliQueueUpdateRivalryThreshold: negative values are rejected. */
    method UpdateRivalryThreshold(threshold: int) returns (err: QueueError)
      modifies this
      ensures err == if threshold < 0 then BadParam else Success
      ensures State() == if threshold < 0 then old(State()) else old(State()).(rivalryThreshold := threshold)
    {
      if threshold < 0 {
        return BadParam;
      }
      rivalryThreshold := threshold;
      err := Success;
    }
  }

  /** IsraeliQueueSize: the number of nodes, 0 for a NULL queue. */
  method Size<T>(q: IsraeliQueue?<T>) returns (n: nat)
    ensures n == if q == null then 0 else |q.nodes|
  {
    if q == null {
      return 0;
    }
    n := 0;
    while n < |q.nodes|
      invariant n <= |q.nodes|
    {
      n := n + 1;
    }
  }

  /** IsraeliQueueDequeue: remove and return the head item; NULL (None) for a
      NULL or empty queue, which is then left as it was. */
  method Dequeue<T>(q: IsraeliQueue?<T>) returns (item: Option<T>)
    modifies q
    ensures q == null ==> item == None
    ensures q != null ==> item == (if old(q.nodes) == [] then None else Some(old(q.nodes)[0].item))
    ensures q != null ==> q.State() == Dequeued(old(q.State()))
    ensures q != null && old(q.Valid()) ==> q.Valid()
  {
    if q == null || q.nodes == [] {
      return None;
    }
    item := Some(q.nodes[0].item);
    q.nodes := q.nodes[1..];
  }

  /** IsraeliQueueContains: does some node's item compare equal (0) to data?
      False for a NULL queue or NULL data. The comparison gets the node's item
      first and data second. */
  method Contains<T>(q: IsraeliQueue?<T>, data: Option<T>) returns (found: bool)
    ensures found <==> (q != null && data.Some? &&
                        exists i :: 0 <= i < |q.nodes| && q.compare(q.nodes[i].item, data.value) == 0)
  {
    if q == null || data.None? {
      return false;
    }
    var i := 0;
    while i < |q.nodes|
      invariant 0 <= i <= |q.nodes|
      invariant forall k :: 0 <= k < i ==> q.compare(q.nodes[k].item, data.value) != 0
    {
      if q.compare(q.nodes[i].item, data.value) == 0 {
        return true;
      }
      i := i + 1;
    }
    found := false;
  }

  /** The queues of qs as values, in array order. */
  function States<T>(qs: seq<IsraeliQueue<T>>): (r: seq<QueueState<T>>)
    reads set i | 0 <= i < |qs| :: qs[i]
    ensures |r| == |qs|
    ensures forall i :: 0 <= i < |qs| ==> r[i] == qs[i].State()
  {
    if qs == [] then [] else States(qs[..|qs| - 1]) + [qs[|qs| - 1].State()]
  }

  /** MergeFriendshipsAndThresholds: the concatenation of the inputs' scorer
      lists in array order, and the truncated integer means of their
      friendship and rivalry thresholds. */
  method MergeFriendshipsAndThresholds<T>(qs: seq<IsraeliQueue<T>>) returns (m: Measures<T>)
    requires |qs| > 0
    ensures m.scorers == ConcatScorers(States(qs))
    ensures m.friendshipThreshold == TruncDiv(SumFriendshipThresholds(States(qs)), |qs|)
    ensures m.rivalryThreshold == TruncDiv(SumRivalryThresholds(States(qs)), |qs|)
  {
    var friendships: seq<Scorer<T>> := [];
    var friendshipThreshold := 0;
    var rivalryThreshold := 0;
    var i := 0;
    while i < |qs|
      invariant 0 <= i <= |qs|
      invariant friendships == ConcatScorers(States(qs)[..i])
      invariant friendshipThreshold == SumFriendshipThresholds(States(qs)[..i])
      invariant rivalryThreshold == SumRivalryThresholds(States(qs)[..i])
    {
      friendshipThreshold := friendshipThreshold + qs[i].friendshipThreshold;
      rivalryThreshold := rivalryThreshold + qs[i].rivalryThreshold;
      var j := 0;
      while j < |qs[i].scorers|
        invariant 0 <= j <= |qs[i].scorers|
        invariant friendships == ConcatScorers(States(qs)[..i]) + qs[i].scorers[..j]
      {
        friendships := friendships + [qs[i].scorers[j]];
        j := j + 1;
        assert qs[i].scorers[..j] == qs[i].scorers[..j - 1] + [qs[i].scorers[j - 1]];
      }
      assert qs[i].scorers[..j] == qs[i].scorers;
      i := i + 1;
      assert States(qs)[..i][..i - 1] == States(qs)[..i - 1];
    }
    assert States(qs)[..i] == States(qs);
    m := Measures(friendships, TruncDiv(friendshipThreshold, i), TruncDiv(rivalryThreshold, i));
  }

  /** One step of the merge round: dequeue the head of src and, when there
      was one, enqueue it into dst. */
  method MoveHead<T>(src: IsraeliQueue<T>, dst: IsraeliQueue<T>)
    requires src != dst
    modifies src, dst
    ensures src.State() == Dequeued(old(src.State()))
    ensures dst.State() == EnqueueHeads(old(dst.State()), [old(src.State())])
  {
    var item := Dequeue(src);
    if item.Some? {
      dst.Enqueue(item.value);
    }
  }

  /** The round of IsraeliQueueMerge: for each input in array order, move its
      head (if any) into dst. */
  method MergeRound<T>(qs: seq<IsraeliQueue<T>>, dst: IsraeliQueue<T>)
    requires forall i, j :: 0 <= i < |qs| && 0 <= j < |qs| && i != j ==> qs[i] != qs[j]
    requires forall i :: 0 <= i < |qs| ==> qs[i] != dst
    modifies dst, set i | 0 <= i < |qs| :: qs[i]
    ensures dst.State() == EnqueueHeads(old(dst.State()), old(States(qs)))
    ensures forall k :: 0 <= k < |qs| ==> qs[k].State() == Dequeued(old(qs[k].State()))
  {
    ghost var inputs := States(qs);
    ghost var start := dst.State();
    var i := 0;
    while i < |qs|
      invariant 0 <= i <= |qs|
      invariant dst.State() == EnqueueHeads(start, inputs[..i])
      invariant forall k :: 0 <= k < i ==> qs[k].State() == Dequeued(inputs[k])
      invariant forall k :: i <= k < |qs| ==> qs[k].State() == inputs[k]
    {
      MoveHead(qs[i], dst);
      EnqueueHeadsSnoc(start, inputs[..i], inputs[i]);
      assert inputs[..i + 1] == inputs[..i] + [inputs[i]];
      i := i + 1;
    }
    assert inputs[..i] == inputs;
  }

  /** The empty queue IsraeliQueueMerge creates, with the merged scorers and
      thresholds of the inputs. */
  method NewMergedQueue<T>(qs: seq<IsraeliQueue<T>>, compare: (T, T) -> int) returns (merged: IsraeliQueue<T>)
    requires |qs| > 0
    ensures fresh(merged)
    ensures merged.State() == MergeBase(States(qs), compare)
  {
    var m := MergeFriendshipsAndThresholds(qs);
    merged := new IsraeliQueue(m.scorers, compare, m.friendshipThreshold, m.rivalryThreshold);
  }

  /** IsraeliQueueMerge: a new queue with the merged scorers and thresholds,
      into which the head of each input is moved, once, in array order. Each
      input loses exactly its head. */
  method Merge<T>(qs: seq<IsraeliQueue<T>>, compare: (T, T) -> int) returns (merged: IsraeliQueue<T>)
    requires |qs| > 0
    requires forall i, j :: 0 <= i < |qs| && 0 <= j < |qs| && i != j ==> qs[i] != qs[j]
    modifies set i | 0 <= i < |qs| :: qs[i]
    ensures fresh(merged)
    ensures merged.State() == MergeSpec(old(States(qs)), compare)
    ensures merged.Valid()
    ensures States(qs) == DequeuedAll(old(States(qs)))
  {
    merged := NewMergedQueue(qs, compare);
    MergeRound(qs, merged);
    DequeuedAllPointwise(States(qs), old(States(qs)));
    EnqueueHeadsPreservesQuota(MergeBase(old(States(qs)), compare), old(States(qs)));
  }
}
