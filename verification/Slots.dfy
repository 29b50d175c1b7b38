/** The weighted first-in-first-out semaphore and the slot of each tool call (malong/semaphore.js,
    malong/mcp-server.js: the tools/call branch). */
module Slots {
  /** Waiting for the semaphore; running; still running after the caller was told of a timeout; given up waiting;
      or over. */
  datatype Phase = Waiting | Running | Overrun | GivenUp | Over

  /** A tool call: its weight, its phase, and the flag that guards its release. */
  datatype Call = Call(weight: nat, phase: Phase, released: bool)

  predicate Holds(c: Call) {
    c.phase == Running || c.phase == Overrun
  }

  /** The weight held by the first n calls. */
  ghost function Held(calls: seq<Call>, n: nat): nat
    requires n <= |calls|
  {
    if n == 0 then 0 else Held(calls, n - 1) + if Holds(calls[n-1]) then calls[n-1].weight else 0
  }

  lemma {:induction false} HeldUpdate(calls: seq<Call>, i: nat, c: Call, n: nat)
    requires i < |calls| && n <= |calls|
    ensures Held(calls[i := c], n) == Held(calls, n)
         + (if i < n && Holds(c) then c.weight else 0) - (if i < n && Holds(calls[i]) then calls[i].weight else 0)
  {
    if n > 0 {
      HeldUpdate(calls, i, c, n - 1);
    }
  }

  lemma {:induction false} HeldPrefix(calls: seq<Call>, c: Call, n: nat)
    requires n <= |calls|
    ensures Held(calls + [c], n) == Held(calls, n)
  {
    if n > 0 {
      HeldPrefix(calls, c, n - 1);
    }
  }

  lemma {:induction false} HeldAtLeast(calls: seq<Call>, i: nat, n: nat)
    requires i < n <= |calls| && Holds(calls[i])
    ensures calls[i].weight <= Held(calls, n)
  {
    if i < n - 1 {
      HeldAtLeast(calls, i, n - 1);
    }
  }

  lemma {:induction false} SomeoneHolds(calls: seq<Call>, n: nat)
    requires n <= |calls| && Held(calls, n) > 0
    ensures exists i :: 0 <= i < n && Holds(calls[i])
  {
    if !Holds(calls[n-1]) {
      SomeoneHolds(calls, n - 1);
    }
  }

  /** heavyToolWeight */
  function HeavyToolWeight(concurrency: nat): nat {
    var half := concurrency / 2;
    var w := if half > 3 then half else 3;
    if concurrency < w then concurrency else w
  }

  /** A heavy call always fits, and from four slots on leaves room for a light one. It takes half the slots, rounded
      down, but at least three if there are that many. */
  lemma {:induction false} HeavyFits(concurrency: nat)
    requires concurrency >= 1
    ensures 1 <= HeavyToolWeight(concurrency) <= concurrency
    ensures HeavyToolWeight(concurrency) < concurrency <==> concurrency >= 4
    ensures concurrency >= 3 ==> HeavyToolWeight(concurrency) >= 3
    ensures 2 * HeavyToolWeight(concurrency) + 1 >= concurrency
    ensures HeavyToolWeight(concurrency) > 3 ==> 2 * HeavyToolWeight(concurrency) <= concurrency
  {
  }

  // ---- What every step keeps ----

  /** Every call's phase fits its place in the queue and the state of its release; `log` counts the releases. */
  ghost predicate CallsValid(max: nat, calls: seq<Call>, queue: seq<nat>, log: multiset<nat>) {
    && (forall i :: 0 <= i < |calls| ==> 1 <= calls[i].weight <= max)
    && (forall i :: 0 <= i < |calls| ==> (calls[i].phase == Waiting <==> i in queue))
    && (forall i :: 0 <= i < |calls| ==> (calls[i].released <==> calls[i].phase == Over))
    && (forall i :: 0 <= i < |calls| ==> log[i] == if calls[i].released then 1 else 0)
    && (forall i :: i >= |calls| ==> log[i] == 0)
  }

  /** Arrival order in the queue and in the grants, and whoever waits came after whoever was let in. */
  ghost predicate InOrder(calls: seq<Call>, queue: seq<nat>, grants: seq<nat>) {
    && (forall k :: 0 <= k < |queue| ==> queue[k] < |calls|)
    && (forall k, l :: 0 <= k < l < |queue| ==> queue[k] < queue[l])
    && (forall k :: 0 <= k < |grants| ==> grants[k] < |calls|)
    && (forall k, l :: 0 <= k < l < |grants| ==> grants[k] < grants[l])
    && (forall k, l :: 0 <= k < |grants| && 0 <= l < |queue| ==> grants[k] < queue[l])
    && (forall i :: 0 <= i < |calls| && (Holds(calls[i]) || calls[i].phase == Over) ==> i in grants)
  }

  lemma {:induction false} EntryKeeps(max: nat, calls: seq<Call>, grants: seq<nat>, log: multiset<nat>, weight: nat)
    requires CallsValid(max, calls, [], log) && InOrder(calls, [], grants) && 1 <= weight <= max
    ensures var id, calls' := |calls|, calls + [Call(weight, Running, false)];
            && CallsValid(max, calls', [], log) && InOrder(calls', [], grants + [id])
            && Held(calls', |calls'|) == Held(calls, |calls|) + weight
  {
    HeldPrefix(calls, Call(weight, Running, false), |calls|);
    Appended(grants, |calls|);
  }

  lemma {:induction false} QueueingKeeps(max: nat, calls: seq<Call>, queue: seq<nat>, grants: seq<nat>,
                                         log: multiset<nat>, weight: nat)
    requires CallsValid(max, calls, queue, log) && InOrder(calls, queue, grants) && 1 <= weight <= max
    ensures var id, calls' := |calls|, calls + [Call(weight, Waiting, false)];
            && CallsValid(max, calls', queue + [id], log) && InOrder(calls', queue + [id], grants)
            && Held(calls', |calls'|) == Held(calls, |calls|)
  {
    HeldPrefix(calls, Call(weight, Waiting, false), |calls|);
    Appended(queue, |calls|);
  }

  lemma {:induction false} Appended(s: seq<nat>, x: nat)
    ensures forall i :: i in s + [x] <==> i in s || i == x
    ensures forall k :: 0 <= k < |s + [x]| ==> (s + [x])[k] == if k < |s| then s[k] else x
  {
    assert (s + [x])[|s|] == x;
    assert forall i :: i in s ==> i in s + [x];
  }

  lemma {:induction false} GiveUpKeeps(max: nat, calls: seq<Call>, queue: seq<nat>, grants: seq<nat>,
                                       log: multiset<nat>, k: nat)
    requires CallsValid(max, calls, queue, log) && InOrder(calls, queue, grants) && k < |queue|
    ensures var id := queue[k];
            var calls', queue' := calls[id := calls[id].(phase := GivenUp)], queue[..k] + queue[k+1..];
            && (forall i :: i in queue' <==> i in queue && i != id)
            && CallsValid(max, calls', queue', log) && InOrder(calls', queue', grants)
            && Held(calls', |calls'|) == Held(calls, |calls|)
  {
    var id := queue[k];
    var c := calls[id].(phase := GivenUp);
    assert calls[id].phase == Waiting;
    HeldUpdate(calls, id, c, |calls|);
    Without(queue, k);
  }

  lemma {:induction false} Without(queue: seq<nat>, k: nat)
    requires k < |queue| && forall i, j :: 0 <= i < j < |queue| ==> queue[i] < queue[j]
    ensures var q := queue[..k] + queue[k+1..];
            && (forall i :: i in q <==> i in queue && i != queue[k])
            && (forall i, j :: 0 <= i < j < |q| ==> q[i] < q[j])
            && (forall i :: 0 <= i < |q| ==> q[i] in queue)
  {
    var q := queue[..k] + queue[k+1..];
    forall i | i in queue && i != queue[k] ensures i in q {
      var l :| 0 <= l < |queue| && queue[l] == i;
      assert q[if l < k then l else l - 1] == i;
    }
  }

  lemma {:induction false} GrantKeeps(max: nat, calls: seq<Call>, queue: seq<nat>, grants: seq<nat>, log: multiset<nat>)
    requires CallsValid(max, calls, queue, log) && InOrder(calls, queue, grants) && queue != []
    ensures var id := queue[0];
            var calls' := calls[id := calls[id].(phase := Running)];
            && CallsValid(max, calls', queue[1..], log) && InOrder(calls', queue[1..], grants + [id])
            && Held(calls', |calls'|) == Held(calls, |calls|) + calls[id].weight
            && (forall i :: i in queue[1..] <==> i in queue && i != id)
  {
    var id := queue[0];
    assert calls[id].phase == Waiting;
    HeldUpdate(calls, id, calls[id].(phase := Running), |calls|);
    WithoutFirst(queue);
    GrantKeepsOrder(calls, queue, grants);
  }

  lemma {:induction false} WithoutFirst(queue: seq<nat>)
    requires queue != [] && forall i, j :: 0 <= i < j < |queue| ==> queue[i] < queue[j]
    ensures forall i :: i in queue[1..] <==> i in queue && i != queue[0]
  {
    assert queue == [queue[0]] + queue[1..];
  }

  lemma {:induction false} GrantKeepsOrder(calls: seq<Call>, queue: seq<nat>, grants: seq<nat>)
    requires InOrder(calls, queue, grants) && queue != []
    ensures InOrder(calls[queue[0] := calls[queue[0]].(phase := Running)], queue[1..], grants + [queue[0]])
  {
    var id, rest, grants' := queue[0], queue[1..], grants + [queue[0]];
    Appended(grants, id);
    assert forall k :: 0 <= k < |rest| ==> rest[k] == queue[k+1];
    forall k, l | 0 <= k < l < |grants'| ensures grants'[k] < grants'[l] {
    }
    forall k, l | 0 <= k < |grants'| && 0 <= l < |rest| ensures grants'[k] < rest[l] {
    }
  }

  lemma {:induction false} OverKeeps(max: nat, calls: seq<Call>, queue: seq<nat>, grants: seq<nat>, log: multiset<nat>,
                                     id: nat)
    requires CallsValid(max, calls, queue, log) && InOrder(calls, queue, grants) && id < |calls| && Holds(calls[id])
    ensures var calls' := calls[id := calls[id].(phase := Over, released := true)];
            && CallsValid(max, calls', queue, log + multiset{id}) && InOrder(calls', queue, grants)
            && Held(calls', |calls'|) + calls[id].weight == Held(calls, |calls|)
  {
    HeldUpdate(calls, id, calls[id].(phase := Over, released := true), |calls|);
  }

  lemma {:induction false} OverrunKeeps(max: nat, calls: seq<Call>, queue: seq<nat>, grants: seq<nat>,
                                        log: multiset<nat>, id: nat)
    requires CallsValid(max, calls, queue, log) && InOrder(calls, queue, grants) && id < |calls| &&
              calls[id].phase == Running
    ensures var calls' := calls[id := calls[id].(phase := Overrun)];
            && CallsValid(max, calls', queue, log) && InOrder(calls', queue, grants)
            && Held(calls', |calls'|) == Held(calls, |calls|)
  {
    HeldUpdate(calls, id, calls[id].(phase := Overrun), |calls|);
  }

  /** The first in the queue does not fit. */
  ghost predicate Blocked(max: nat, current: nat, calls: seq<Call>, queue: seq<nat>) {
    queue != [] ==> queue[0] < |calls| && current + calls[queue[0]].weight > max
  }

  /** A call that arrives while it cannot be let in does not unblock the head. */
  lemma {:induction false} BlockedStays(max: nat, current: nat, calls: seq<Call>, queue: seq<nat>, c: Call)
    ensures Blocked(max, current, calls, queue) && (queue != [] || current + c.weight > max) ==>
              Blocked(max, current, calls + [c], queue + [|calls|])
  {
  }

  /** A call that leaves the queue unblocks the head exactly if it was the head and the next one fits. */
  lemma {:induction false} BlockedAfterGivingUp(max: nat, current: nat, calls: seq<Call>, queue: seq<nat>, k: nat)
    requires k < |queue|
    requires forall i, j :: 0 <= i < j < |queue| ==> queue[i] < queue[j]
    requires forall i :: 0 <= i < |queue| ==> queue[i] < |calls|
    ensures var id := queue[k];
            Blocked(max, current, calls, queue) ==>
              (!Blocked(max, current, calls[id := calls[id].(phase := GivenUp)], queue[..k] + queue[k+1..]) <==>
                 |queue| > 1 && queue[0] == id && current + calls[queue[1]].weight <= max)
  {
    var q := queue[..k] + queue[k+1..];
    if q != [] {
      assert q[0] == if k == 0 then queue[1] else queue[0];
    }
  }

  /** What a release makes of the calls: those that left the queue run, all others are as they were. */
  ghost predicate LetIn(calls: seq<Call>, queue: seq<nat>, calls': seq<Call>, queue': seq<nat>) {
    && |calls'| == |calls| && |queue'| <= |queue| && queue' == queue[|queue|-|queue'|..]
    && forall i :: 0 <= i < |calls| ==>
         calls'[i] == if i in queue && i !in queue' then calls[i].(phase := Running) else calls[i]
  }

  lemma {:induction false} LetInOneMore(calls: seq<Call>, queue: seq<nat>, calls1: seq<Call>, queue1: seq<nat>,
                                        calls2: seq<Call>, queue2: seq<nat>)
    requires LetIn(calls, queue, calls1, queue1) && queue1 != [] && queue1[0] < |calls|
    requires queue2 == queue1[1..] && calls2 == calls1[queue1[0] := calls1[queue1[0]].(phase := Running)]
    requires forall i :: i in queue2 <==> i in queue1 && i != queue1[0]
    ensures LetIn(calls, queue, calls2, queue2)
  {
    assert queue1[0] == queue[|queue|-|queue1|];
    forall i | 0 <= i < |calls|
      ensures calls2[i] == if i in queue && i !in queue2 then calls[i].(phase := Running) else calls[i]
    {
    }
  }

  class Dispatcher {
    const max: nat
    var current: nat
    /** The calls in the order in which they arrived. */
    var calls: seq<Call>
    /** The calls that wait, first come first. */
    var queue: seq<nat>
    /** The calls that got the semaphore, in the order in which they got it, and those that released it. */
    ghost var grants: seq<nat>
    ghost var log: multiset<nat>

    /** The counter is what is held, within the limit. */
    ghost predicate Consistent()
      reads this
    {
      CallsValid(max, calls, queue, log) && InOrder(calls, queue, grants) && current == Held(calls, |calls|) <= max
    }

    /** And as long as someone waits, someone holds. */
    ghost predicate Valid()
      reads this
    {
      Consistent() && (queue != [] ==> current > 0)
    }

    ghost predicate HeadBlocked()
      reads this
    {
      Blocked(max, current, calls, queue)
    }

    constructor (max: nat)
      ensures Valid() && this.max == max && current == 0 && calls == [] && queue == [] && grants == [] &&
                log == multiset{}
    {
      this.max := max;
      current, calls, queue, grants, log := 0, [], [], [], multiset{};
    }

    /** acquire: a new call gets the semaphore at once if it fits and nobody waits, and waits otherwise. A blocked
        head stays blocked. */
    method Arrive(weight: nat) returns (id: nat)
      requires Valid() && 1 <= weight <= max
      modifies this
      ensures Valid() && id == |old(calls)| && log == old(log)
      ensures var now := old(current) + weight <= max && old(queue) == [];
              && calls == old(calls) + [Call(weight, if now then Running else Waiting, false)]
              && queue == (if now then old(queue) else old(queue) + [id])
              && current == old(current) + if now then weight else 0
      ensures old(HeadBlocked()) ==> HeadBlocked()
    {
      id := |calls|;
      var now := current + weight <= max && queue == [];
      BlockedStays(max, current, calls, queue, Call(weight, Waiting, false));
      if now {
        Enter(weight);
      } else {
        Enqueue(weight);
      }
    }

    method Enter(weight: nat)
      requires Valid() && queue == [] && 1 <= weight && current + weight <= max
      modifies this`calls, this`current, this`grants
      ensures Valid() && calls == old(calls) + [Call(weight, Running, false)] && current == old(current) + weight
    {
      EntryKeeps(max, calls, grants, log, weight);
      grants := grants + [|calls|];
      calls := calls + [Call(weight, Running, false)];
      current := current + weight;
    }

    method Enqueue(weight: nat)
      requires Valid() && 1 <= weight <= max && (queue != [] || current + weight > max)
      modifies this`calls, this`queue
      ensures Valid() && calls == old(calls) + [Call(weight, Waiting, false)] && queue == old(queue) + [|old(calls)|]
    {
      QueueingKeeps(max, calls, queue, grants, log, weight);
      queue := queue + [|calls|];
      calls := calls + [Call(weight, Waiting, false)];
    }

    /** The timer of a waiting call: it leaves the queue, wherever it stands. Those behind it are not looked at: if the
        head was blocked before, it is no longer exactly if the call was the head and the next one fits. */
    method WaitTimeout(id: nat)
      requires Valid() && id < |calls|
      modifies this
      ensures Valid() && current == old(current) && grants == old(grants) && log == old(log)
      ensures old(calls)[id].phase == Waiting ==> calls == old(calls)[id := old(calls)[id].(phase := GivenUp)]
      ensures old(calls)[id].phase == Waiting ==> |queue| == |old(queue)| - 1
      ensures old(calls)[id].phase == Waiting ==> forall i :: i in queue <==> i in old(queue) && i != id
      ensures old(calls)[id].phase != Waiting ==> calls == old(calls) && queue == old(queue)
      ensures old(HeadBlocked()) ==>
                (!HeadBlocked() <==>
                    |old(queue)| > 1 && old(queue)[0] == id && current + old(calls)[old(queue)[1]].weight <= max)
    {
      if calls[id].phase == Waiting {
        var k := Place(id);
        BlockedAfterGivingUp(max, current, calls, queue, k);
        GiveUp(k);
      }
    }

    /** The call at place k of the queue stops waiting. */
    method GiveUp(k: nat)
      requires Valid() && k < |queue| && queue[k] < |calls|
      modifies this`calls, this`queue
      ensures Valid() && calls == old(calls)[old(queue)[k] := old(calls)[old(queue)[k]].(phase := GivenUp)]
      ensures queue == old(queue)[..k] + old(queue)[k+1..] &&
                forall i :: i in queue <==> i in old(queue) && i != old(queue)[k]
    {
      var id := queue[k];
      GiveUpKeeps(max, calls, queue, grants, log, k);
      calls := calls[id := calls[id].(phase := GivenUp)];
      queue := queue[..k] + queue[k+1..];
    }

    /** queue.indexOf */
    method Place(id: nat) returns (k: nat)
      requires id in queue
      ensures k < |queue| && queue[k] == id
    {
      k := 0;
      while queue[k] != id
        invariant k < |queue| && id in queue[k..]
        decreases |queue| - k
      {
        k := k + 1;
      }
    }

    /** release: the weight is given back, never below zero, and whoever comes first in the queue is let in as long
        as there is room. */
    method Release(weight: nat)
      requires CallsValid(max, calls, queue, log) && InOrder(calls, queue, grants)
      requires weight <= current <= max && current - weight == Held(calls, |calls|)
      modifies this`current, this`calls, this`queue, this`grants
      ensures Valid() && HeadBlocked() && LetIn(old(calls), old(queue), calls, queue)
    {
      current := if current > weight then current - weight else 0;
      while |queue| > 0
        invariant Consistent() && LetIn(old(calls), old(queue), calls, queue)
        decreases |queue|
      {
        ghost var before, line := calls, queue;
        if current + calls[queue[0]].weight <= max {
          Grant();
          LetInOneMore(old(calls), old(queue), before, line, calls, queue);
        } else {
          break;
        }
      }
    }

    /** The head of the queue is let in. */
    method Grant()
      requires Consistent() && queue != [] && queue[0] < |calls| && current + calls[queue[0]].weight <= max
      modifies this`current, this`calls, this`queue, this`grants
      ensures Consistent() && queue == old(queue)[1..]
      ensures calls == old(calls)[old(queue)[0] := old(calls)[old(queue)[0]].(phase := Running)]
      ensures forall i :: i in queue <==> i in old(queue) && i != old(queue)[0]
    {
      var next := queue[0];
      GrantKeeps(max, calls, queue, grants, log);
      queue := queue[1..];
      current := current + calls[next].weight;
      calls := calls[next := calls[next].(phase := Running)];
      grants := grants + [next];
    }

    /** releaseSlot: the flag lets only the first of several requests through. */
    method ReleaseSlot(id: nat)
      requires Valid() && id < |calls|
      requires Holds(calls[id]) || (calls[id].phase == Over && HeadBlocked())
      modifies this
      ensures Valid() && HeadBlocked()
      ensures old(calls)[id].phase == Over ==> calls == old(calls) && queue == old(queue) && log == old(log)
      ensures old(calls)[id].phase != Over ==> log == old(log) + multiset{id}
      ensures old(calls)[id].phase != Over ==>
                LetIn(old(calls)[id := old(calls)[id].(phase := Over, released := true)], old(queue), calls, queue)
    {
      if !calls[id].released {
        OverKeeps(max, calls, queue, grants, log, id);
        var weight := calls[id].weight;
        calls := calls[id := calls[id].(phase := Over, released := true)];
        log := log + multiset{id};
        Release(weight);
      }
    }

    /** The tool of a call settles, in time or after a timeout was answered, or the handler throws: its slot is
        released exactly once, even if the way out asks for it twice. */
    method Settle(id: nat, askTwice: bool)
      requires Valid() && id < |calls| && Holds(calls[id])
      modifies this
      ensures Valid() && HeadBlocked() && log == old(log) + multiset{id} && log[id] == 1
      ensures id < |calls| && calls[id].phase == Over
    {
      assert id !in queue;
      ReleaseSlot(id);
      if askTwice {
        ReleaseSlot(id);
      }
    }

    /** The time limit of a running call: the caller is answered, the slot is kept until the tool settles. */
    method CallTimeout(id: nat)
      requires Valid() && id < |calls| && calls[id].phase == Running
      modifies this`calls
      ensures Valid() && calls == old(calls)[id := old(calls)[id].(phase := Overrun)]
      ensures old(HeadBlocked()) ==> HeadBlocked()
    {
      OverrunKeeps(max, calls, queue, grants, log, id);
      calls := calls[id := calls[id].(phase := Overrun)];
    }

    /** Nobody waits for ever on an idle semaphore: as long as a call waits, some call holds a slot whose end will
        look at the queue again. */
    lemma {:induction false} SomeoneWillRelease()
      requires Valid() && queue != []
      ensures exists i :: 0 <= i < |calls| && Holds(calls[i])
    {
      SomeoneHolds(calls, |calls|);
    }
  }

  /** After the head of the queue gave up, the next call may fit and yet wait until something is released: that the
      head does not fit is so after a release, not at every moment. It happens for every limit and all weights, if the
      first two calls do not fit together and the first and the third do. */
  method TimeoutDoesNotWake(max: nat, first: nat, second: nat, third: nat) returns (d: Dispatcher)
    requires 1 <= first <= max && 1 <= second <= max && 1 <= third
    requires first + second > max && first + third <= max
    ensures fresh(d) && d.max == max && d.Valid() && !d.HeadBlocked()
    ensures d.queue == [2] && d.current == first && |d.calls| == 3 && d.calls[2] == Call(third, Waiting, false)
  {
    d := OneRunsTwoWait(max, first, second, third);
    d.WaitTimeout(1);
    assert |d.queue| == 1 && 2 in d.queue;
  }

  method OneRuns(max: nat, first: nat) returns (d: Dispatcher)
    requires 1 <= first <= max
    ensures fresh(d) && d.max == max && d.Valid() && d.queue == [] && d.current == first && |d.calls| == 1
  {
    d := new Dispatcher(max);
    var a := d.Arrive(first);
  }

  method OneWaits(max: nat, first: nat, second: nat) returns (d: Dispatcher)
    requires 1 <= first <= max && 1 <= second <= max && first + second > max
    ensures fresh(d) && d.max == max && d.Valid() && d.HeadBlocked() && d.queue == [1] && d.current == first
    ensures |d.calls| == 2 && d.calls[1].phase == Waiting
  {
    d := OneRuns(max, first);
    var b := d.Arrive(second);
  }

  method OneRunsTwoWait(max: nat, first: nat, second: nat, third: nat) returns (d: Dispatcher)
    requires 1 <= first <= max && 1 <= second <= max && 1 <= third <= max && first + second > max
    ensures fresh(d) && d.max == max && d.Valid() && d.HeadBlocked() && d.queue == [1, 2] && d.current == first
    ensures |d.calls| == 3 && d.calls[1].phase == Waiting && d.calls[2] == Call(third, Waiting, false)
  {
    d := OneWaits(max, first, second);
    var c := d.Arrive(third);
  }
}
