/**
 Timed sleep (src/task/process.cpp:116-137 and 216-241): sleepers wait in the order of their
 deadlines, and a tick wakes exactly those whose time has come.
 */
module SleepQueue {
  import opened LinkedList

  datatype Sleeper = Sleeper(task: int, endTick: nat, endSubtick: nat)

  /** The deadline is at or before the given time. */
  predicate Due(s: Sleeper, seconds: nat, subseconds: nat) {
    s.endTick < seconds || (s.endTick == seconds && s.endSubtick <= subseconds)
  }

  /** With `scale` subticks in a tick, that is a comparison of times. */
  lemma DueIsTime(s: Sleeper, seconds: nat, subseconds: nat, scale: nat)
    requires s.endSubtick < scale && subseconds < scale
    ensures Due(s, seconds, subseconds) <==> s.endTick * scale + s.endSubtick <= seconds * scale + subseconds
  {
    if s.endTick < seconds {
      Earlier(s.endTick, seconds, scale);
    } else if seconds < s.endTick {
      Earlier(seconds, s.endTick, scale);
    }
  }

  lemma Earlier(a: nat, b: nat, scale: nat)
    requires a < b
    ensures a * scale + scale <= b * scale
  {
    assert b * scale == a * scale + scale + (b - a - 1) * scale;
    assert 0 <= (b - a - 1) * scale;
  }

  /** `a` comes before `b`: earlier, or at the same time and arrived earlier. */
  predicate Before(a: Sleeper, i: int, b: Sleeper, j: int) {
    a.endTick < b.endTick || (a.endTick == b.endTick &&
      (a.endSubtick < b.endSubtick || (a.endSubtick == b.endSubtick && i < j)))
  }

  /** Sleepers in the order of deadlines, those with the same deadline in the order of arrival. */
  ghost predicate Ordered(values: seq<Sleeper>, arrivals: seq<int>) {
    |arrivals| == |values| && forall i, j | 0 <= i < j < |values| ::
      Before(values[i], arrivals[i], values[j], arrivals[j])
  }

  ghost predicate Arrived(arrivals: seq<int>, clock: int) {
    forall i | 0 <= i < |arrivals| :: arrivals[i] < clock
  }

  lemma InsertedInOrder(values: seq<Sleeper>, arrivals: seq<int>, k: nat, s: Sleeper, now: int)
    requires Ordered(values, arrivals) && k <= |values| && Arrived(arrivals, now)
    requires forall i | 0 <= i < k :: Due(values[i], s.endTick, s.endSubtick)
    requires k < |values| ==> !Due(values[k], s.endTick, s.endSubtick)
    ensures Ordered(values[..k] + [s] + values[k..], arrivals[..k] + [now] + arrivals[k..])
    ensures |values| == |arrivals| && Arrived(arrivals[..k] + [now] + arrivals[k..], now + 1)
    ensures PutInOrder(values, values[..k] + [s] + values[k..], arrivals, arrivals[..k] + [now] + arrivals[k..], s, now)
  {
    forall i | k <= i < |values| ensures !Due(values[i], s.endTick, s.endSubtick) {
      assert i > k ==> Before(values[k], arrivals[k], values[i], arrivals[i]);
    }
    assert PutAt(values, values[..k] + [s] + values[k..], arrivals, arrivals[..k] + [now] + arrivals[k..], s, now, k);
  }

  /** The sleeper has been put behind exactly those that are due at its deadline. */
  ghost predicate PutInOrder(values: seq<Sleeper>, values': seq<Sleeper>, arrivals: seq<int>, arrivals': seq<int>,
      s: Sleeper, now: int) {
    |arrivals| == |values| && exists k: nat :: PutAt(values, values', arrivals, arrivals', s, now, k)
  }

  ghost predicate PutAt(values: seq<Sleeper>, values': seq<Sleeper>, arrivals: seq<int>, arrivals': seq<int>,
      s: Sleeper, now: int, k: nat) {
    && k <= |values| == |arrivals| && IsPlace(values, s, k)
    && values' == values[..k] + [s] + values[k..] && arrivals' == arrivals[..k] + [now] + arrivals[k..]
  }

  ghost predicate IsPlace(values: seq<Sleeper>, s: Sleeper, k: nat) {
    forall i | 0 <= i < |values| :: Due(values[i], s.endTick, s.endSubtick) <==> i < k
  }

  class Queue {
    var queue: List<Sleeper>
    /** The sleepers in the queue, and when each of them arrived. */
    ghost var sleepers: seq<Sleeper>
    ghost var arrivals: seq<int>
    ghost var clock: int
    /** The nodes that were ever used for this queue. */
    ghost var pool: set<object>

    ghost predicate Valid()
      reads this, queue, queue.nodes
    {
      Shape() && Ordered(sleepers, arrivals) && Arrived(arrivals, clock)
    }

    ghost predicate Pooled(nodes: seq<Node<Sleeper>>, pool: set<object>) {
      forall n | n in nodes :: n in pool
    }

    lemma PooledInserted(nodes: seq<Node<Sleeper>>, k: nat, node: Node<Sleeper>, pool: set<object>)
      requires Pooled(nodes, pool) && k <= |nodes|
      ensures Pooled(nodes[..k] + [node] + nodes[k..], pool + {node})
    {
      InsertedMembers(nodes, k, node);
    }

    lemma PooledTail(nodes: seq<Node<Sleeper>>, node: Node<Sleeper>, rest: seq<Node<Sleeper>>, pool: set<object>)
      requires Pooled(nodes, pool) && nodes == [node] + rest
      ensures Pooled(rest, pool)
    {
    }

    lemma TailOf(s: seq<Sleeper>, x: Sleeper, rest: seq<Sleeper>)
      requires s == [x] + rest
      ensures s[1..] == rest
    {
    }

    lemma HeadIsFirst()
      requires Shape()
      ensures queue.head == null <==> sleepers == []
      ensures queue.head != null ==> queue.head in pool && queue.head.value == sleepers[0]
    {
    }

    /** The list holds the sleepers. */
    ghost predicate Shape()
      reads `queue, `sleepers, `pool, queue, queue.nodes
    {
      && queue.Valid() && queue !in pool && this !in pool && Pooled(queue.nodes, pool)
      && queue.Values() == sleepers
    }

    constructor ()
      ensures Valid() && fresh(queue) && sleepers == [] && pool == {}
    {
      queue := new List();
      sleepers, arrivals, clock, pool := [], [], 0, {};
    }

    /** The search of `sleep_until`: the last sleeper that is not later than the new one, null if there is none. */
    method FindPlace(seconds: nat, subseconds: nat) returns (before: Node?<Sleeper>, ghost k: nat)
      requires Valid()
      ensures k <= |sleepers| && before == At(queue.nodes, k - 1)
      ensures forall i | 0 <= i < k :: Due(sleepers[i], seconds, subseconds)
      ensures k < |sleepers| ==> !Due(sleepers[k], seconds, subseconds)
    {
      before := null;
      k := 0;
      var node := queue.head;
      while node != null
        invariant k <= |queue.nodes| && before == At(queue.nodes, k - 1) && node == At(queue.nodes, k)
        invariant forall i | 0 <= i < k :: Due(sleepers[i], seconds, subseconds)
        decreases |queue.nodes| - k
      {
        assert LinkOk(queue.nodes, k);
        var candidate := node.value;
        if candidate.endTick > seconds || (candidate.endTick == seconds && candidate.endSubtick > subseconds) {
          break;
        }
        before := node;
        node := node.next;
        k := k + 1;
      }
    }

    /** `list_insert_after` */
    method Enqueue(before: Node?<Sleeper>, proc: Sleeper, ghost k: nat)
      requires Shape() && k <= |sleepers| && before == At(queue.nodes, k - 1)
      modifies queue, pool, `sleepers, `pool
      ensures Shape() && sleepers == old(sleepers)[..k] + [proc] + old(sleepers)[k..] && fresh(pool - old(pool))
    {
      hide Distinct, AllLinked, AllOwned, Pooled;
      ghost var s := sleepers;
      var node := new Node(proc);
      PooledInserted(queue.nodes, k, node, pool);
      queue.AppendAfter(before, node, k);
      pool := pool + {node};
      sleepers := s[..k] + [proc] + s[k..];
    }

    /**
     `sleep_until`: unless the current task sleeps already, the task goes behind all sleepers
     whose deadline is not later than its own.
     */
    method SleepUntil(task: int, seconds: nat, subseconds: nat, asleep: bool)
      requires Valid()
      modifies this, queue, pool
      ensures Valid() && queue == old(queue) && fresh(pool - old(pool))
      ensures asleep ==> sleepers == old(sleepers) && arrivals == old(arrivals)
      ensures !asleep ==> PutInOrder(old(sleepers), sleepers, old(arrivals), arrivals,
        Sleeper(task, seconds, subseconds), old(clock))
    {
      if asleep {
        return;
      }
      hide Ordered, PutInOrder, Arrived;
      assert this !in pool;
      hide Shape;
      SameLength(sleepers, arrivals);
      var before, k := FindPlace(seconds, subseconds);
      var proc := Sleeper(task, seconds, subseconds);
      ghost var a, now := arrivals, clock;
      InsertedInOrder(sleepers, a, k, proc, now);
      Enqueue(before, proc, k);
      arrivals, clock := a[..k] + [now] + a[k..], now + 1;
    }

    /** `list_dequeue` */
    method TakeFirst()
      requires Shape() && sleepers != []
      modifies queue, pool, `sleepers
      ensures Shape() && sleepers == old(sleepers)[1..]
    {
      hide Distinct, AllLinked, AllOwned;
      ghost var nodes, values := queue.nodes, sleepers;
      assert forall n | n in nodes :: n in pool;
      hide Pooled;
      var node := queue.Dequeue();
      PooledTail(nodes, node, queue.nodes, pool);
      TailOf(values, node.value, queue.Values());
      sleepers := sleepers[1..];
    }

    /** The first sleeper leaves. */
    method WakeFirst()
      requires Valid() && sleepers != []
      modifies this, queue, pool
      ensures Valid() && queue == old(queue) && pool == old(pool) && sleepers == old(sleepers)[1..] &&
        arrivals == old(arrivals)[1..]
    {
      hide Ordered;
      assert this !in pool;
      hide Shape;
      OrderedTail(sleepers, arrivals);
      TakeFirst();
      arrivals := arrivals[1..];
    }

    /** `wakeup_sleepers`: exactly the sleepers whose deadline is at or before now leave, the rest keep their order. */
    method WakeupSleepers(seconds: nat, subseconds: nat) returns (ghost woken: seq<Sleeper>)
      requires Valid()
      modifies this, queue, pool
      ensures Valid() && queue == old(queue) && pool == old(pool) && old(sleepers) == woken + sleepers
      ensures |old(arrivals)| >= |woken| && arrivals == old(arrivals)[|woken|..]
      ensures forall s | s in woken :: Due(s, seconds, subseconds)
      ensures forall s | s in sleepers :: !Due(s, seconds, subseconds)
    {
      hide Ordered, Shape;
      woken := [];
      SameLength(sleepers, arrivals);
      HeadIsFirst();
      while queue.head != null && Due(queue.head.value, seconds, subseconds)
        invariant Valid() && queue == old(queue) && pool == old(pool) && old(sleepers) == woken + sleepers
        invariant |old(arrivals)| >= |woken| && arrivals == old(arrivals)[|woken|..]
        invariant forall s | s in woken :: Due(s, seconds, subseconds)
        invariant queue.head == null <==> sleepers == []
        invariant queue.head != null ==> queue.head.value == sleepers[0]
        decreases |sleepers|
      {
        ghost var rest := sleepers;
        SameLength(rest, arrivals);
        WakeFirst();
        OneMovesOn(old(sleepers), woken, rest, old(arrivals));
        HeadIsFirst();
        woken := woken + [rest[0]];
      }
      NoneDue(sleepers, arrivals, seconds, subseconds);
    }
  }

  lemma OneMovesOn(values: seq<Sleeper>, woken: seq<Sleeper>, rest: seq<Sleeper>, arrivals: seq<int>)
    requires values == woken + rest && rest != [] && |woken| < |arrivals|
    ensures values == (woken + [rest[0]]) + rest[1..]
    ensures arrivals[|woken|..][1..] == arrivals[|woken| + 1..]
  {
  }

  lemma SameLength(values: seq<Sleeper>, arrivals: seq<int>)
    requires Ordered(values, arrivals)
    ensures |values| == |arrivals|
  {
  }

  lemma OrderedTail(values: seq<Sleeper>, arrivals: seq<int>)
    requires Ordered(values, arrivals) && values != []
    ensures |values| == |arrivals| && Ordered(values[1..], arrivals[1..])
  {
  }

  /** If the first sleeper in order is not due, none is. */
  lemma NoneDue(values: seq<Sleeper>, arrivals: seq<int>, seconds: nat, subseconds: nat)
    requires Ordered(values, arrivals) && (values != [] ==> !Due(values[0], seconds, subseconds))
    ensures forall s | s in values :: !Due(s, seconds, subseconds)
  {
    forall i | 0 <= i < |values| ensures !Due(values[i], seconds, subseconds) {
      assert i > 0 ==> Before(values[0], arrivals[0], values[i], arrivals[i]);
    }
  }
}
