/**
 * The value-level model of an Israeli queue (IsraeliQueue.c).
 *
 * A queue is a sequence of nodes; each node holds an item and two counters:
 * how many items jumped in behind it as its friend, and how many jumps it
 * blocked as a rival. The queue also owns an ordered list of scorers (the
 * "friendship functions"), a comparison function and two thresholds.
 *
 * This module states, as functions on values, what each operation of the
 * queue does; the class in module Queue is proved against them.
 */
module Affinity {
  import opened Wrappers

  /** Per-node caps on jumps and blocks. They are defined in IsraeliQueue.h,
      which is not part of this model; only their being positive matters. */
  const FRIEND_QUOTA: nat := 5
  const RIVAL_QUOTA: nat := 3

  datatype FriendStatus = Neutral | Friend | Rival

  /** A friendship function: an integer affinity score for an ordered pair of items. */
  type Scorer<-T> = (T, T) -> int

  datatype Node<T> = Node(item: T, friendsCalledOver: nat, rivalsBlocked: nat)

  datatype QueueState<!T> = QueueState(
    nodes: seq<Node<T>>,
    scorers: seq<Scorer<T>>,
    compare: (T, T) -> int,
    friendshipThreshold: int,
    rivalryThreshold: int)

  /** A node as enqueue creates it: both counters at zero. */
  function NewNode<T>(item: T): Node<T>
  {
    Node(item, 0, 0)
  }

  function Items<T>(nodes: seq<Node<T>>): seq<T>
  {
    seq(|nodes|, i requires 0 <= i < |nodes| => nodes[i].item)
  }

  function NewNodes<T>(items: seq<T>): seq<Node<T>>
  {
    seq(|items|, i requires 0 <= i < |items| => NewNode(items[i]))
  }

  /** Every node's counters are within their quota. */
  ghost predicate WithinQuota<T>(nodes: seq<Node<T>>)
  {
    forall i :: 0 <= i < |nodes| ==>
      nodes[i].friendsCalledOver <= FRIEND_QUOTA && nodes[i].rivalsBlocked <= RIVAL_QUOTA
  }

  // ---------------------------------------------------------------------------
  // Classification of a pair of items (getFriendshipStatus)
  // ---------------------------------------------------------------------------

  /** The sum of the first k scorer outputs for the pair (a, b), in registration order. */
  function ScoreSum<T>(scorers: seq<Scorer<T>>, a: T, b: T, k: nat): int
    requires k <= |scorers|
  {
    if k == 0 then 0 else ScoreSum(scorers, a, b, k - 1) + scorers[k - 1](a, b)
  }

  /** FRIEND when some non-empty prefix sum of the scorer outputs exceeds the
      friendship threshold; otherwise RIVAL when the mean of all outputs is
      below the rivalry threshold (sum < threshold * count, for a non-empty
      scorer list); otherwise NEUTRAL. With no scorers the mean is undefined
      (NaN in the source) and the status is NEUTRAL. */
  function FriendshipStatus<T>(scorers: seq<Scorer<T>>, friendshipThreshold: int,
                               rivalryThreshold: int, a: T, b: T): FriendStatus
  {
    if exists k :: 1 <= k <= |scorers| && ScoreSum(scorers, a, b, k) > friendshipThreshold then
      Friend
    else if |scorers| > 0 && ScoreSum(scorers, a, b, |scorers|) < rivalryThreshold * |scorers| then
      Rival
    else
      Neutral
  }

  /** The status of the pair (a, b) under the queue's scorers and thresholds. */
  function Status<T>(q: QueueState<T>, a: T, b: T): FriendStatus
  {
    FriendshipStatus(q.scorers, q.friendshipThreshold, q.rivalryThreshold, a, b)
  }

  lemma {:induction false} ScoreSumOfPrefix<T>(scorers: seq<Scorer<T>>, rest: seq<Scorer<T>>, a: T, b: T, k: nat)
    requires k <= |scorers|
    ensures ScoreSum(scorers + rest, a, b, k) == ScoreSum(scorers, a, b, k)
  {
    if k > 0 {
      ScoreSumOfPrefix(scorers, rest, a, b, k - 1);
      assert (scorers + rest)[k - 1] == scorers[k - 1];
    }
  }

  /** Once the scorers registered so far make a pair FRIEND, scorers
      registered later cannot change that: the early exit never consults them. */
  lemma FriendIgnoresLaterScorers<T>(scorers: seq<Scorer<T>>, rest: seq<Scorer<T>>,
                                     ft: int, rt: int, a: T, b: T)
    requires FriendshipStatus(scorers, ft, rt, a, b) == Friend
    ensures FriendshipStatus(scorers + rest, ft, rt, a, b) == Friend
  {
    var k :| 1 <= k <= |scorers| && ScoreSum(scorers, a, b, k) > ft;
    ScoreSumOfPrefix(scorers, rest, a, b, k);
  }

  // ---------------------------------------------------------------------------
  // Placement of a new item (findFriendNotBlocked)
  // ---------------------------------------------------------------------------

  /** Node j may take the new item as a friend: FRIEND, with jump quota left.
      The new item is the first argument of the scorers, the node's item the second. */
  predicate EligibleFriend<T>(q: QueueState<T>, item: T, j: nat)
    requires j < |q.nodes|
  {
    Status(q, item, q.nodes[j].item) == Friend && q.nodes[j].friendsCalledOver < FRIEND_QUOTA
  }

  /** Node j may block a jump as a rival: RIVAL, with block quota left. */
  predicate BlockingRival<T>(q: QueueState<T>, item: T, j: nat)
    requires j < |q.nodes|
  {
    Status(q, item, q.nodes[j].item) == Rival && q.nodes[j].rivalsBlocked < RIVAL_QUOTA
  }

  /** The two cursors of the front-to-back scan: the friend candidate and the blocking rival. */
  datatype Scan = Scan(friend: Option<nat>, rival: Option<nat>)

  /** One step of the scan, at node j. A rival only matters while a candidate is set. */
  function ScanStep<T>(q: QueueState<T>, item: T, s: Scan, j: nat): Scan
    requires j < |q.nodes|
  {
    if EligibleFriend(q, item, j) && s.friend.None? then Scan(Some(j), s.rival)
    else if BlockingRival(q, item, j) && s.friend.Some? then Scan(None, Some(j))
    else s
  }

  /** The cursors after scanning the first p nodes. A set friend cursor is an
      eligible friend and a set rival cursor a blocking rival, both among those p nodes. */
  function ScanUpTo<T>(q: QueueState<T>, item: T, p: nat): (s: Scan)
    requires p <= |q.nodes|
    ensures s.friend.Some? ==> s.friend.value < p && EligibleFriend(q, item, s.friend.value)
    ensures s.rival.Some? ==> s.rival.value < p && BlockingRival(q, item, s.rival.value)
  {
    if p == 0 then Scan(None, None) else ScanStep(q, item, ScanUpTo(q, item, p - 1), p - 1)
  }

  /** Where the new node goes: after node `after` (None: as the head of an
      empty queue), and which counter of that node is bumped. */
  datatype Target = Target(after: Option<nat>, status: FriendStatus)

  /** The friend candidate if one is set, else the blocking rival, else the
      last node (NEUTRAL), else the head of the empty queue. */
  function FindTarget<T>(q: QueueState<T>, item: T): (t: Target)
    ensures t.after.Some? ==> t.after.value < |q.nodes|
    ensures t.after.None? <==> q.nodes == []
  {
    var s := ScanUpTo(q, item, |q.nodes|);
    if s.friend.Some? then Target(s.friend, Friend)
    else if s.rival.Some? then Target(s.rival, Rival)
    else if q.nodes == [] then Target(None, Neutral)
    else Target(Some(|q.nodes| - 1), Neutral)
  }

  /** The target node's counter after the insertion: the jump counter for a
      friend, the block counter for a rival, neither on a tail insertion. */
  function Bump<T>(n: Node<T>, status: FriendStatus): Node<T>
  {
    match status
    case Friend => n.(friendsCalledOver := n.friendsCalledOver + 1)
    case Rival => n.(rivalsBlocked := n.rivalsBlocked + 1)
    case Neutral => n
  }

  /** NodeInsertAfter: link a fresh node after the target and bump its
      counter; an empty queue gets the new node as its only node. */
  function InsertAfter<T>(nodes: seq<Node<T>>, t: Target, item: T): seq<Node<T>>
    requires t.after.Some? ==> t.after.value < |nodes|
    requires t.after.None? ==> nodes == []
  {
    match t.after
    case None => [NewNode(item)]
    case Some(j) => nodes[..j] + [Bump(nodes[j], t.status)] + [NewNode(item)] + nodes[j + 1..]
  }

  /** The queue after enqueueing item. */
  function Enqueued<T>(q: QueueState<T>, item: T): QueueState<T>
  {
    q.(nodes := InsertAfter(q.nodes, FindTarget(q, item), item))
  }

  /** The index the new node occupies after the insertion. */
  function InsertPosition(t: Target): nat
  {
    match t.after
    case None => 0
    case Some(j) => j + 1
  }

  /** The queue after enqueueing every item of items, in order. */
  function EnqueueAll<T>(q: QueueState<T>, items: seq<T>): QueueState<T>
    decreases |items|
  {
    if items == [] then q else EnqueueAll(Enqueued(q, items[0]), items[1..])
  }

  /** The queue after removing its head, if any. */
  function Dequeued<T>(q: QueueState<T>): QueueState<T>
  {
    if q.nodes == [] then q else q.(nodes := q.nodes[1..])
  }

  // ---------------------------------------------------------------------------
  // The placement rule, stated without the scan
  // ---------------------------------------------------------------------------

  /** No blocking rival strictly between positions i and p. */
  ghost predicate Unblocked<T>(q: QueueState<T>, item: T, i: nat, p: nat)
    requires i <= p <= |q.nodes|
  {
    forall k :: i < k < p ==> !BlockingRival(q, item, k)
  }

  /** Among the first p nodes some eligible friend is followed by no blocking
      rival: a friend candidate is set after scanning them. */
  ghost predicate Active<T>(q: QueueState<T>, item: T, p: nat)
    requires p <= |q.nodes|
  {
    exists i :: 0 <= i < p && EligibleFriend(q, item, i) && Unblocked(q, item, i, p)
  }

  lemma {:induction false} ScanCandidateIffActive<T>(q: QueueState<T>, item: T, p: nat)
    requires p <= |q.nodes|
    ensures ScanUpTo(q, item, p).friend.Some? <==> Active(q, item, p)
  {
    if p > 0 {
      ScanCandidateIffActive(q, item, p - 1);
      var j := p - 1;
      if EligibleFriend(q, item, j) {
        assert Unblocked(q, item, j, p);
      } else if BlockingRival(q, item, j) {
        forall i | 0 <= i < p && EligibleFriend(q, item, i)
          ensures !Unblocked(q, item, i, p)
        {
          assert i < j;
          assert BlockingRival(q, item, j);
        }
      } else {
        if Active(q, item, p - 1) {
          var i :| 0 <= i < p - 1 && EligibleFriend(q, item, i) && Unblocked(q, item, i, p - 1);
          assert Unblocked(q, item, i, p);
        }
        if Active(q, item, p) {
          var i :| 0 <= i < p && EligibleFriend(q, item, i) && Unblocked(q, item, i, p);
          assert i < p - 1;
          assert Unblocked(q, item, i, p - 1);
        }
      }
    }
  }

  /** The friend candidate after p nodes is exactly the eligible friend that
      is not blocked afterwards and was found while no candidate was set. */
  lemma {:induction false} ScanCandidateExact<T>(q: QueueState<T>, item: T, p: nat, j: nat)
    requires p <= |q.nodes|
    ensures ScanUpTo(q, item, p).friend == Some(j) <==>
      j < p && EligibleFriend(q, item, j) && Unblocked(q, item, j, p) && !Active(q, item, j)
  {
    if p > 0 {
      var last := p - 1;
      var s := ScanUpTo(q, item, last);
      ScanCandidateIffActive(q, item, last);
      ScanCandidateExact(q, item, last, j);
      if EligibleFriend(q, item, last) && s.friend.None? {
        if j < last {
          assert Unblocked(q, item, j, p) ==> Unblocked(q, item, j, last);
        }
        if j == last {
          assert Unblocked(q, item, j, p);
        }
      } else if BlockingRival(q, item, last) && s.friend.Some? {
        if j < last {
          assert !Unblocked(q, item, j, p) by { assert BlockingRival(q, item, last); }
        }
      } else {
        if j < last {
          if BlockingRival(q, item, last) {
            assert !Unblocked(q, item, j, p) by { assert BlockingRival(q, item, last); }
          } else {
            assert Unblocked(q, item, j, p) <==> Unblocked(q, item, j, last);
          }
        }
      }
    }
  }

  /** The blocking rival after p nodes is exactly the last blocking rival met
      while a friend candidate was set. */
  lemma {:induction false} ScanRivalExact<T>(q: QueueState<T>, item: T, p: nat, k: nat)
    requires p <= |q.nodes|
    ensures ScanUpTo(q, item, p).rival == Some(k) <==>
      k < p && BlockingRival(q, item, k) && Active(q, item, k) &&
      forall m :: k < m < p ==> !(BlockingRival(q, item, m) && Active(q, item, m))
  {
    if p > 0 {
      var last := p - 1;
      var s := ScanUpTo(q, item, last);
      ScanCandidateIffActive(q, item, last);
      ScanRivalExact(q, item, last, k);
      if EligibleFriend(q, item, last) && s.friend.None? {
        assert !BlockingRival(q, item, last);
      } else if BlockingRival(q, item, last) && s.friend.Some? {
        if k < last {
          assert BlockingRival(q, item, last) && Active(q, item, last);
        }
      } else {
        assert !(BlockingRival(q, item, last) && Active(q, item, last));
      }
    }
  }

  /** Both cursors stay unset exactly when no eligible friend was scanned. */
  lemma {:induction false} ScanEmptyIffNoFriend<T>(q: QueueState<T>, item: T, p: nat)
    requires p <= |q.nodes|
    ensures ScanUpTo(q, item, p) == Scan(None, None) <==>
      forall j :: 0 <= j < p ==> !EligibleFriend(q, item, j)
  {
    if p > 0 {
      ScanEmptyIffNoFriend(q, item, p - 1);
    }
  }

  /** The placement rule of enqueue, stated on the queue alone: the new node
      follows the first eligible friend not blocked by a later rival; failing
      that, the last rival that blocked a candidate; failing that (no eligible
      friend at all), it goes to the tail. */
  lemma PlacementRule<T>(q: QueueState<T>, item: T, j: nat)
    ensures var n := |q.nodes|;
      && (FindTarget(q, item) == Target(Some(j), Friend) <==>
            j < n && EligibleFriend(q, item, j) && Unblocked(q, item, j, n) && !Active(q, item, j))
      && (FindTarget(q, item) == Target(Some(j), Rival) <==>
            !Active(q, item, n) && j < n && BlockingRival(q, item, j) && Active(q, item, j) &&
            forall m :: j < m < n ==> !(BlockingRival(q, item, m) && Active(q, item, m)))
      && (FindTarget(q, item).status == Neutral <==>
            forall i :: 0 <= i < n ==> !EligibleFriend(q, item, i))
  {
    var n := |q.nodes|;
    ScanCandidateIffActive(q, item, n);
    ScanCandidateExact(q, item, n, j);
    ScanRivalExact(q, item, n, j);
    ScanEmptyIffNoFriend(q, item, n);
  }

  // ---------------------------------------------------------------------------
  // What enqueue does to the node sequence
  // ---------------------------------------------------------------------------

  /** The new node sits at InsertPosition(t); before it the old nodes keep
      their places (the target's counter bumped), after it they move up by one. */
  lemma InsertAfterAt<T>(nodes: seq<Node<T>>, t: Target, item: T)
    requires t.after.Some? ==> t.after.value < |nodes|
    requires t.after.None? ==> nodes == []
    ensures var after := InsertAfter(nodes, t, item);
      var pos := InsertPosition(t);
      && |after| == |nodes| + 1
      && pos <= |nodes|
      && after[pos] == NewNode(item)
      && (forall i :: 0 <= i < pos ==>
            after[i] == if t.after == Some(i) then Bump(nodes[i], t.status) else nodes[i])
      && (forall i :: pos < i < |after| ==> after[i] == nodes[i - 1])
  {
    match t.after
    case None =>
    case Some(j) =>
      var after := InsertAfter(nodes, t, item);
      assert after == nodes[..j] + [Bump(nodes[j], t.status)] + [NewNode(item)] + nodes[j + 1..];
      assert forall i :: 0 <= i < j ==> after[i] == nodes[i];
      assert forall i :: j + 1 < i < |after| ==> after[i] == nodes[i - 1];
  }

  /** Enqueue adds exactly one node, with both counters zero; the old nodes
      keep their relative order, and of them only the target's counter
      changes (the jump counter for a friend, the block counter for a rival,
      none on a tail insertion). */
  lemma EnqueueEffect<T>(q: QueueState<T>, item: T)
    ensures var t := FindTarget(q, item);
      var after := Enqueued(q, item).nodes;
      var pos := InsertPosition(t);
      && |after| == |q.nodes| + 1
      && pos <= |q.nodes|
      && after[pos] == NewNode(item)
      && (forall i :: 0 <= i < pos ==>
            after[i] == if t.after == Some(i) then Bump(q.nodes[i], t.status) else q.nodes[i])
      && (forall i :: pos < i < |after| ==> after[i] == q.nodes[i - 1])
      && (t.status == Neutral ==> pos == |q.nodes|)
  {
    InsertAfterAt(q.nodes, FindTarget(q, item), item);
  }

  /** Inserting after a target keeps every old item, in order, and adds the
      new one at the insertion position. */
  lemma InsertAfterItems<T>(nodes: seq<Node<T>>, t: Target, item: T)
    requires t.after.Some? ==> t.after.value < |nodes|
    requires t.after.None? ==> nodes == []
    ensures var pos := InsertPosition(t);
      && pos <= |nodes|
      && Items(InsertAfter(nodes, t, item)) == Items(nodes)[..pos] + [item] + Items(nodes)[pos..]
  {
    InsertAfterAt(nodes, t, item);
  }

  /** Enqueue inserts the item once and keeps every other item, in order. */
  lemma EnqueueItems<T>(q: QueueState<T>, item: T)
    ensures var pos := InsertPosition(FindTarget(q, item));
      && pos <= |q.nodes|
      && Items(Enqueued(q, item).nodes) == Items(q.nodes)[..pos] + [item] + Items(q.nodes)[pos..]
      && multiset(Items(Enqueued(q, item).nodes)) == multiset(Items(q.nodes)) + multiset{item}
  {
    var t := FindTarget(q, item);
    InsertAfterItems(q.nodes, t, item);
    InsertedMultiset(Items(q.nodes), InsertPosition(t), item);
  }

  /** Inserting one element anywhere adds exactly that element to the multiset. */
  lemma InsertedMultiset<T>(s: seq<T>, pos: nat, x: T)
    requires pos <= |s|
    ensures multiset(s[..pos] + [x] + s[pos..]) == multiset(s) + multiset{x}
  {
    assert s == s[..pos] + s[pos..];
  }

  /** Counters never exceed their quotas: enqueue bumps only a counter that was below it. */
  lemma EnqueuePreservesQuota<T>(q: QueueState<T>, item: T)
    requires WithinQuota(q.nodes)
    ensures WithinQuota(Enqueued(q, item).nodes)
  {
    EnqueueEffect(q, item);
  }

  /** With no eligible friend (for instance when every pair is NEUTRAL),
      enqueue is a plain FIFO append. */
  lemma {:induction false} NoFriendAppends<T>(q: QueueState<T>, item: T)
    requires forall j :: 0 <= j < |q.nodes| ==> !EligibleFriend(q, item, j)
    ensures Enqueued(q, item).nodes == q.nodes + [NewNode(item)]
  {
    ScanEmptyIffNoFriend(q, item, |q.nodes|);
    if q.nodes != [] {
      var n := |q.nodes|;
      assert q.nodes[..n - 1] + [q.nodes[n - 1]] == q.nodes;
    }
  }

  /** With no scorers every pair is NEUTRAL, so no node is an eligible friend. */
  lemma NoScorersNoFriend<T>(q: QueueState<T>, item: T)
    requires q.scorers == []
    ensures forall j :: 0 <= j < |q.nodes| ==> !EligibleFriend(q, item, j)
  {
  }

  /** With no scorers every enqueue sequence yields plain insertion order. */
  lemma {:induction false} NoScorersIsFifo<T>(q: QueueState<T>, items: seq<T>)
    requires q.scorers == []
    ensures EnqueueAll(q, items).nodes == q.nodes + NewNodes(items)
    decreases |items|
  {
    if items != [] {
      NoScorersAppends(q, items[0]);
      var q1 := Enqueued(q, items[0]);
      NoScorersIsFifo(q1, items[1..]);
      NewNodesCons(items);
    }
  }

  /** With no scorers a single enqueue appends and keeps the scorer list empty. */
  lemma NoScorersAppends<T>(q: QueueState<T>, item: T)
    requires q.scorers == []
    ensures Enqueued(q, item).nodes == q.nodes + [NewNode(item)]
    ensures Enqueued(q, item).scorers == []
  {
    NoScorersNoFriend(q, item);
    NoFriendAppends(q, item);
  }

  lemma NewNodesCons<T>(items: seq<T>)
    requires items != []
    ensures NewNodes(items) == [NewNode(items[0])] + NewNodes(items[1..])
  {
  }

  /** A worked case: one scorer that scores (B, A) above the friendship
      threshold makes B, enqueued after A, sit right behind A. */
  lemma FriendJumpsBehind<T>(q: QueueState<T>, a: T, b: T, score: Scorer<T>)
    requires q.nodes == [] && q.scorers == [score]
    requires score(b, a) > q.friendshipThreshold
    ensures Enqueued(Enqueued(q, a), b).nodes == [Node(a, 1, 0), NewNode(b)]
  {
    var q1 := Enqueued(q, a);
    assert q1.nodes == [NewNode(a)];
    assert ScoreSum(q1.scorers, b, a, 1) > q1.friendshipThreshold;
    assert EligibleFriend(q1, b, 0);
  }

  // ---------------------------------------------------------------------------
  // Merge (IsraeliQueueMerge, MergeFriendshipsAndThresholds)
  // ---------------------------------------------------------------------------

  /** C's `/` on int: rounds toward zero, unlike Dafny's Euclidean division. */
  function TruncDiv(a: int, n: int): (r: int)
    requires n > 0
    ensures a >= 0 ==> 0 <= r && r * n <= a < r * n + n
    ensures a < 0 ==> r <= 0 && r * n - n < a <= r * n
  {
    if a >= 0 then
      DivBounds(a, n);
      a / n
    else
      DivBounds(-a, n);
      -((-a) / n)
  }

  lemma DivBounds(x: int, n: int)
    requires x >= 0 && n > 0
    ensures 0 <= x / n
    ensures (x / n) * n <= x < (x / n) * n + n
    ensures (-(x / n)) * n == -((x / n) * n)
  {
    assert x == (x / n) * n + x % n;
  }

  /** The scorer lists of the queues, concatenated in array order. */
  function ConcatScorers<T>(qs: seq<QueueState<T>>): seq<Scorer<T>>
  {
    if qs == [] then [] else ConcatScorers(qs[..|qs| - 1]) + qs[|qs| - 1].scorers
  }

  function SumFriendshipThresholds<T>(qs: seq<QueueState<T>>): int
  {
    if qs == [] then 0 else SumFriendshipThresholds(qs[..|qs| - 1]) + qs[|qs| - 1].friendshipThreshold
  }

  function SumRivalryThresholds<T>(qs: seq<QueueState<T>>): int
  {
    if qs == [] then 0 else SumRivalryThresholds(qs[..|qs| - 1]) + qs[|qs| - 1].rivalryThreshold
  }

  /** The merged queue's scorers and thresholds (the MergeRet of the source). */
  datatype Measures<!T> = Measures(scorers: seq<Scorer<T>>, friendshipThreshold: int, rivalryThreshold: int)

  function MergedMeasures<T>(qs: seq<QueueState<T>>): Measures<T>
    requires |qs| > 0
  {
    Measures(ConcatScorers(qs),
             TruncDiv(SumFriendshipThresholds(qs), |qs|),
             TruncDiv(SumRivalryThresholds(qs), |qs|))
  }

  /** Enqueue into acc the head of each queue of qs that has one, in array order. */
  function EnqueueHeads<T>(acc: QueueState<T>, qs: seq<QueueState<T>>): QueueState<T>
  {
    if qs == [] then acc
    else
      var before := EnqueueHeads(acc, qs[..|qs| - 1]);
      var last := qs[|qs| - 1];
      if last.nodes == [] then before else Enqueued(before, last.nodes[0].item)
  }

  /** One more queue at the end of the round enqueues its head after the others. */
  lemma EnqueueHeadsSnoc<T>(acc: QueueState<T>, qs: seq<QueueState<T>>, last: QueueState<T>)
    ensures EnqueueHeads(acc, qs + [last]) == EnqueueHeads(EnqueueHeads(acc, qs), [last])
  {
    assert (qs + [last])[..|qs|] == qs;
    assert [last][..0] == [];
  }

  /** A merge round keeps every counter of the destination within its quota. */
  lemma {:induction false} EnqueueHeadsPreservesQuota<T>(acc: QueueState<T>, qs: seq<QueueState<T>>)
    requires WithinQuota(acc.nodes)
    ensures WithinQuota(EnqueueHeads(acc, qs).nodes)
  {
    if qs != [] {
      var before := EnqueueHeads(acc, qs[..|qs| - 1]);
      EnqueueHeadsPreservesQuota(acc, qs[..|qs| - 1]);
      var last := qs[|qs| - 1];
      if last.nodes != [] {
        EnqueuePreservesQuota(before, last.nodes[0].item);
      }
    }
  }

  /** The merged queue: created empty with the merged measures, then one
      round that moves the head of every input into it. */
  function MergeSpec<T>(qs: seq<QueueState<T>>, compare: (T, T) -> int): QueueState<T>
    requires |qs| > 0
  {
    EnqueueHeads(MergeBase(qs, compare), qs)
  }

  /** The empty queue the merge starts from. */
  function MergeBase<T>(qs: seq<QueueState<T>>, compare: (T, T) -> int): QueueState<T>
    requires |qs| > 0
  {
    var m := MergedMeasures(qs);
    QueueState([], m.scorers, compare, m.friendshipThreshold, m.rivalryThreshold)
  }

  function DequeuedAll<T>(qs: seq<QueueState<T>>): (r: seq<QueueState<T>>)
    ensures |r| == |qs|
    ensures forall i :: 0 <= i < |qs| ==> r[i] == Dequeued(qs[i])
  {
    if qs == [] then [] else DequeuedAll(qs[..|qs| - 1]) + [Dequeued(qs[|qs| - 1])]
  }

  /** A sequence that agrees index by index with the dequeued inputs is DequeuedAll of them. */
  lemma DequeuedAllPointwise<T>(r: seq<QueueState<T>>, qs: seq<QueueState<T>>)
    requires |r| == |qs|
    requires forall i :: 0 <= i < |qs| ==> r[i] == Dequeued(qs[i])
    ensures r == DequeuedAll(qs)
  {
  }

  /** The heads of the non-empty queues, in array order. */
  function Heads<T>(qs: seq<QueueState<T>>): seq<T>
  {
    if qs == [] then []
    else Heads(qs[..|qs| - 1]) + (if qs[|qs| - 1].nodes == [] then [] else [qs[|qs| - 1].nodes[0].item])
  }

  /** One merge round adds exactly the heads of the non-empty inputs and
      changes nothing else about the accumulating queue. */
  lemma {:induction false} EnqueueHeadsItems<T>(acc: QueueState<T>, qs: seq<QueueState<T>>)
    ensures multiset(Items(EnqueueHeads(acc, qs).nodes)) == multiset(Items(acc.nodes)) + multiset(Heads(qs))
    ensures EnqueueHeads(acc, qs).scorers == acc.scorers
    ensures EnqueueHeads(acc, qs).friendshipThreshold == acc.friendshipThreshold
    ensures EnqueueHeads(acc, qs).rivalryThreshold == acc.rivalryThreshold
    ensures EnqueueHeads(acc, qs).compare == acc.compare
  {
    if qs != [] {
      var init := qs[..|qs| - 1];
      EnqueueHeadsItems(acc, init);
      var last := qs[|qs| - 1];
      if last.nodes != [] {
        EnqueueItems(EnqueueHeads(acc, init), last.nodes[0].item);
      }
    }
  }

  /** The merged queue holds exactly the heads of the non-empty inputs. */
  lemma MergeHoldsHeads<T>(qs: seq<QueueState<T>>, compare: (T, T) -> int)
    requires |qs| > 0
    ensures multiset(Items(MergeSpec(qs, compare).nodes)) == multiset(Heads(qs))
    ensures MergeSpec(qs, compare).scorers == ConcatScorers(qs)
  {
    var m := MergedMeasures(qs);
    EnqueueHeadsItems(QueueState([], m.scorers, compare, m.friendshipThreshold, m.rivalryThreshold), qs);
  }

  /** If every queue has friendship threshold ft, the friendship thresholds sum to (number of queues) * ft. */
  lemma {:induction false} SumOfEqualFriendshipThresholds<T>(qs: seq<QueueState<T>>, ft: int)
    requires forall i :: 0 <= i < |qs| ==> qs[i].friendshipThreshold == ft
    ensures SumFriendshipThresholds(qs) == |qs| * ft
  {
    if qs != [] {
      SumOfEqualFriendshipThresholds(qs[..|qs| - 1], ft);
    }
  }

  /** If every queue has rivalry threshold rt, the rivalry thresholds sum to (number of queues) * rt. */
  lemma {:induction false} SumOfEqualRivalryThresholds<T>(qs: seq<QueueState<T>>, rt: int)
    requires forall i :: 0 <= i < |qs| ==> qs[i].rivalryThreshold == rt
    ensures SumRivalryThresholds(qs) == |qs| * rt
  {
    if qs != [] {
      SumOfEqualRivalryThresholds(qs[..|qs| - 1], rt);
    }
  }

  lemma MulAtLeast(n: int, k: int)
    requires n > 0 && k >= 1
    ensures n * k >= n
  {
    assert n * k == n * (k - 1) + n;
  }

  /** Merging queues that all share one friendship threshold keeps it,
      whatever its sign and whatever their rivalry thresholds (the mean is
      taken with C's truncating division). */
  lemma MergeKeepsCommonFriendshipThreshold<T>(qs: seq<QueueState<T>>, ft: int)
    requires |qs| > 0
    requires forall i :: 0 <= i < |qs| ==> qs[i].friendshipThreshold == ft
    ensures MergedMeasures(qs).friendshipThreshold == ft
  {
    SumOfEqualFriendshipThresholds(qs, ft);
    TruncDivExact(|qs|, ft);
  }

  /** Merging queues that all share one rivalry threshold keeps it, whatever
      its sign and whatever their friendship thresholds. */
  lemma MergeKeepsCommonRivalryThreshold<T>(qs: seq<QueueState<T>>, rt: int)
    requires |qs| > 0
    requires forall i :: 0 <= i < |qs| ==> qs[i].rivalryThreshold == rt
    ensures MergedMeasures(qs).rivalryThreshold == rt
  {
    SumOfEqualRivalryThresholds(qs, rt);
    TruncDivExact(|qs|, rt);
  }

  lemma TruncDivExact(n: int, t: int)
    requires n > 0
    ensures TruncDiv(n * t, n) == t
  {
    var r := TruncDiv(n * t, n);
    if r < t {
      assert n * t - r * n == n * (t - r);
      MulAtLeast(n, t - r);
    } else if r > t {
      assert r * n - n * t == n * (r - t);
      MulAtLeast(n, r - t);
    }
  }
}
