/** The coordinator's worker pool and task queues: the messages it sends, the two
    parallel worker lists (`workers`, `workerOccupied`), and the dispatch sweep that
    `sendDecryptHintMessage` and `sendDecryptPasswordMessage` both perform. */
module Dispatching {
  import opened Lists
  import opened Passwords

  /** A worker's actor reference; the coordinator only ever compares them. */
  type ActorRef = nat

  /** The two kinds of queued work. A password task carries a clone of the record. */
  datatype Task =
    | DecryptHintMessage(id: int, hint: string, hintCharacterCombination: seq<char>)
    | GoCrackPasswordMessage(password: Password)

  /** Every `tell` the coordinator performs, in the order performed. */
  datatype Msg =
    | ToWorker(worker: ActorRef, task: Task)
    | ReadMessage                                    // to the reader: send the next batch
    | CollectBatchProcessed(size: nat)               // to the collector: "Processed batch of size ..."
    | CollectDecryptedPassword(name: string, id: int, password: string)
    | PrintMessage                                   // to the collector: print what was collected
    | Terminate                                      // `terminate()`: poison pills and the final dump

  /** The worker lists, both queues and the messages sent so far. */
  datatype Pool = Pool(
    workers: seq<ActorRef>,
    occupied: seq<bool>,
    hintQueue: seq<Task>,
    passwordQueue: seq<Task>,
    outbox: seq<Msg>)

  /** The end of one sweep over a queue; `threw` records the IndexOutOfBoundsException of
      `workers.get(i)` for a flag index the worker list no longer reaches. */
  datatype Swept = Swept(queue: seq<Task>, occupied: seq<bool>, outbox: seq<Msg>, threw: bool)

  /** The state of the worker lists and queues after a sweep, and whether it raised. */
  datatype Dispatched = Dispatched(pool: Pool, threw: bool)

  function Min(a: int, b: int): int {
    if a <= b then a else b
  }

  /** The sweep loop from flag index `i` on. A free index takes the head of the queue
      (which leaves the queue first), the task goes to `workers[i]`, and the flag is set.
      An empty queue makes `remove()` fail, which is caught, so that index is passed over.
      An index past the end of `workers` raises after the task was removed. */
  function SweepFrom(workers: seq<ActorRef>, queue: seq<Task>, occupied: seq<bool>, outbox: seq<Msg>, i: nat): (s: Swept)
    requires i <= |occupied|
    ensures |s.occupied| == |occupied|
    decreases |occupied| - i
  {
    if i == |occupied| then Swept(queue, occupied, outbox, false)
    else if occupied[i] || queue == [] then SweepFrom(workers, queue, occupied, outbox, i + 1)
    else if |workers| <= i then Swept(queue[1..], occupied, outbox, true)
    else SweepFrom(workers, queue[1..], occupied[i := true], outbox + [ToWorker(workers[i], queue[0])], i + 1)
  }

  /** The free flag indices from `i` on, in ascending order. */
  function FreeFrom(occupied: seq<bool>, i: nat): (r: seq<nat>)
    requires i <= |occupied|
    ensures forall t :: 0 <= t < |r| ==> i <= r[t] < |occupied| && !occupied[r[t]]
    ensures forall t, u :: 0 <= t < u < |r| ==> r[t] < r[u]
    decreases |occupied| - i
  {
    if i == |occupied| then []
    else if occupied[i] then FreeFrom(occupied, i + 1)
    else [i] + FreeFrom(occupied, i + 1)
  }

  /** The flag indices from `i` on that are free in `before` and busy in `after`, ascending. */
  function Newly(before: seq<bool>, after: seq<bool>, i: nat): (r: seq<nat>)
    requires |before| == |after| && i <= |before|
    ensures forall t :: 0 <= t < |r| ==> i <= r[t] < |before| && !before[r[t]] && after[r[t]]
    ensures forall t, u :: 0 <= t < u < |r| ==> r[t] < r[u]
    decreases |before| - i
  {
    if i == |before| then []
    else if !before[i] && after[i] then [i] + Newly(before, after, i + 1)
    else Newly(before, after, i + 1)
  }

  /** Every free flag index from `i` on is listed. */
  lemma {:induction false} FreeFromComplete(occupied: seq<bool>, i: nat, j: nat)
    requires i <= j < |occupied| && !occupied[j]
    ensures j in FreeFrom(occupied, i)
    decreases |occupied| - i
  {
    if i < j {
      FreeFromComplete(occupied, i + 1, j);
    }
  }

  /** Every flag index from `i` on that is free in `before` and busy in `after` is listed. */
  lemma {:induction false} NewlyComplete(before: seq<bool>, after: seq<bool>, i: nat, j: nat)
    requires |before| == |after| && i <= j < |before| && !before[j] && after[j]
    ensures j in Newly(before, after, i)
    decreases |before| - i
  {
    if i < j {
      NewlyComplete(before, after, i + 1, j);
    }
  }

  lemma {:induction false} FreeFromFrame(a: seq<bool>, b: seq<bool>, i: nat)
    requires |a| == |b| && i <= |a|
    requires forall j :: i <= j < |a| ==> a[j] == b[j]
    ensures FreeFrom(a, i) == FreeFrom(b, i)
    decreases |a| - i
  {
    if i < |a| {
      FreeFromFrame(a, b, i + 1);
    }
  }

  lemma {:induction false} NewlyFrame(a: seq<bool>, b: seq<bool>, after: seq<bool>, i: nat)
    requires |a| == |b| == |after| && i <= |a|
    requires forall j :: i <= j < |a| ==> a[j] == b[j]
    ensures Newly(a, after, i) == Newly(b, after, i)
    decreases |a| - i
  {
    if i < |a| {
      NewlyFrame(a, b, after, i + 1);
    }
  }

  lemma {:induction false} NewlyNone(a: seq<bool>, i: nat)
    requires i <= |a|
    ensures Newly(a, a, i) == []
    decreases |a| - i
  {
    if i < |a| {
      NewlyNone(a, i + 1);
    }
  }

  /** The messages of a sweep that served the flag indices `served`, in order: the t-th
      served worker receives the t-th task of the queue. */
  function Deliveries(workers: seq<ActorRef>, served: seq<nat>, queue: seq<Task>): (r: seq<Msg>)
    requires |served| <= |queue|
    requires forall t :: 0 <= t < |served| ==> served[t] < |workers|
    ensures |r| == |served|
    ensures forall t :: 0 <= t < |served| ==> r[t] == ToWorker(workers[served[t]], queue[t])
  {
    if served == [] then []
    else [ToWorker(workers[served[0]], queue[0])] + Deliveries(workers, served[1..], queue[1..])
  }

  /** A sweep never frees a flag, and leaves the flags before its starting index alone. */
  lemma {:induction false} SweepFlags(workers: seq<ActorRef>, queue: seq<Task>, occupied: seq<bool>, outbox: seq<Msg>, i: nat)
    requires i <= |occupied|
    ensures var s := SweepFrom(workers, queue, occupied, outbox, i);
            && (forall j :: 0 <= j < i ==> s.occupied[j] == occupied[j])
            && (forall j :: 0 <= j < |occupied| && occupied[j] ==> s.occupied[j])
    decreases |occupied| - i
  {
    if i == |occupied| {
    } else if occupied[i] || queue == [] {
      SkipStep(workers, queue, occupied, outbox, i);
      SweepFlags(workers, queue, occupied, outbox, i + 1);
    } else if |workers| <= i {
      assert SweepFrom(workers, queue, occupied, outbox, i).occupied == occupied;
    } else {
      var occ1 := occupied[i := true];
      var out1 := outbox + [ToWorker(workers[i], queue[0])];
      ServeStep(workers, queue, occupied, outbox, i);
      SweepFlags(workers, queue[1..], occ1, out1, i + 1);
      assert forall j :: 0 <= j < i ==> occ1[j] == occupied[j];
    }
  }

  /** Passing an occupied index, or any index once the queue is empty: the sweep just
      moves on. */
  lemma SkipStep(workers: seq<ActorRef>, queue: seq<Task>, occupied: seq<bool>, outbox: seq<Msg>, i: nat)
    requires i < |occupied| && (occupied[i] || queue == [])
    ensures SweepFrom(workers, queue, occupied, outbox, i) == SweepFrom(workers, queue, occupied, outbox, i + 1)
  {
  }

  /** What any sweep does, whether or not the two worker lists line up: every flag it
      sets comes with exactly one task sent to the worker listed at that index, the tasks
      leaving the queue in FIFO order and the indices served in ascending order; an
      exception loses exactly one more task. */
  lemma {:induction false} SweepAccounting(workers: seq<ActorRef>, queue: seq<Task>, occupied: seq<bool>, outbox: seq<Msg>, i: nat)
    requires i <= |occupied|
    ensures var s := SweepFrom(workers, queue, occupied, outbox, i);
            forall t :: 0 <= t < |Newly(occupied, s.occupied, i)| ==> Newly(occupied, s.occupied, i)[t] < |workers|
    ensures var s := SweepFrom(workers, queue, occupied, outbox, i);
            |Newly(occupied, s.occupied, i)| + (if s.threw then 1 else 0) <= |queue|
    ensures var s := SweepFrom(workers, queue, occupied, outbox, i);
            s.queue == queue[|Newly(occupied, s.occupied, i)| + (if s.threw then 1 else 0)..]
    ensures var s := SweepFrom(workers, queue, occupied, outbox, i);
            s.outbox == outbox + Deliveries(workers, Newly(occupied, s.occupied, i), queue)
    decreases |occupied| - i, 1
  {
    var s := SweepFrom(workers, queue, occupied, outbox, i);
    if i == |occupied| {
      assert Newly(occupied, s.occupied, i) == [];
    } else if occupied[i] || queue == [] {
      SweepAccountingSkip(workers, queue, occupied, outbox, i);
    } else if |workers| <= i {
      assert s == Swept(queue[1..], occupied, outbox, true);
      NewlyNone(occupied, i);
    } else {
      SweepAccountingServe(workers, queue, occupied, outbox, i);
    }
  }

  lemma {:induction false} SweepAccountingSkip(workers: seq<ActorRef>, queue: seq<Task>, occupied: seq<bool>, outbox: seq<Msg>, i: nat)
    requires i < |occupied| && (occupied[i] || queue == [])
    ensures var s := SweepFrom(workers, queue, occupied, outbox, i);
            && (forall t :: 0 <= t < |Newly(occupied, s.occupied, i)| ==> Newly(occupied, s.occupied, i)[t] < |workers|)
            && |Newly(occupied, s.occupied, i)| + (if s.threw then 1 else 0) <= |queue|
            && s.queue == queue[|Newly(occupied, s.occupied, i)| + (if s.threw then 1 else 0)..]
            && s.outbox == outbox + Deliveries(workers, Newly(occupied, s.occupied, i), queue)
    decreases |occupied| - i, 0
  {
    var s := SweepFrom(workers, queue, occupied, outbox, i);
    assert s == SweepFrom(workers, queue, occupied, outbox, i + 1);
    SweepAccounting(workers, queue, occupied, outbox, i + 1);
    SweepFlags(workers, queue, occupied, outbox, i + 1);
    assert occupied[i] ==> s.occupied[i];
    assert Newly(occupied, s.occupied, i) == Newly(occupied, s.occupied, i + 1);
  }

  lemma {:induction false} SweepAccountingServe(workers: seq<ActorRef>, queue: seq<Task>, occupied: seq<bool>, outbox: seq<Msg>, i: nat)
    requires i < |occupied| && !occupied[i] && queue != [] && i < |workers|
    ensures var s := SweepFrom(workers, queue, occupied, outbox, i);
            && (forall t :: 0 <= t < |Newly(occupied, s.occupied, i)| ==> Newly(occupied, s.occupied, i)[t] < |workers|)
            && |Newly(occupied, s.occupied, i)| + (if s.threw then 1 else 0) <= |queue|
            && s.queue == queue[|Newly(occupied, s.occupied, i)| + (if s.threw then 1 else 0)..]
            && s.outbox == outbox + Deliveries(workers, Newly(occupied, s.occupied, i), queue)
    decreases |occupied| - i, 0
  {
    var s := SweepFrom(workers, queue, occupied, outbox, i);
    var occ1 := occupied[i := true];
    var out1 := outbox + [ToWorker(workers[i], queue[0])];
    assert s == SweepFrom(workers, queue[1..], occ1, out1, i + 1);
    SweepAccounting(workers, queue[1..], occ1, out1, i + 1);
    SweepFlags(workers, queue[1..], occ1, out1, i + 1);
    assert s.occupied[i];
    NewlyFrame(occupied, occ1, s.occupied, i + 1);
    var rest := Newly(occupied, s.occupied, i + 1);
    assert Newly(occupied, s.occupied, i) == [i] + rest;
    var lost := if s.threw then 1 else 0;
    assert queue[1..][|rest| + lost..] == queue[|rest| + 1 + lost..];
    ServeAll(workers, queue, outbox, i, rest);
  }

  /** The delivery to index `i` followed by the deliveries to `rest` is the deliveries to
      `[i] + rest`. */
  lemma ServeAll(workers: seq<ActorRef>, queue: seq<Task>, outbox: seq<Msg>, i: nat, rest: seq<nat>)
    requires |rest| < |queue| && i < |workers|
    requires forall t :: 0 <= t < |rest| ==> rest[t] < |workers|
    ensures outbox + [ToWorker(workers[i], queue[0])] + Deliveries(workers, rest, queue[1..])
            == outbox + Deliveries(workers, [i] + rest, queue)
  {
    assert ([i] + rest)[1..] == rest;
  }

  /** A sweep over aligned lists (at least one worker per flag) never raises. Writing
      `free` for the free indices in ascending order and k for min(|free|, |queue|), it
      sends the first k tasks, in queue order, to the workers at the first k free indices,
      leaves the rest of the queue in place, and sets exactly those k flags. */
  lemma {:induction false} SweepAligned(workers: seq<ActorRef>, queue: seq<Task>, occupied: seq<bool>, outbox: seq<Msg>, i: nat)
    requires i <= |occupied| <= |workers|
    ensures !SweepFrom(workers, queue, occupied, outbox, i).threw
    ensures SweepFrom(workers, queue, occupied, outbox, i).queue
         == queue[Min(|FreeFrom(occupied, i)|, |queue|)..]
    ensures SweepFrom(workers, queue, occupied, outbox, i).outbox
         == outbox + Deliveries(workers, FreeFrom(occupied, i)[..Min(|FreeFrom(occupied, i)|, |queue|)], queue)
    ensures forall j :: 0 <= j < |occupied| ==>
              SweepFrom(workers, queue, occupied, outbox, i).occupied[j]
              == (occupied[j] || j in FreeFrom(occupied, i)[..Min(|FreeFrom(occupied, i)|, |queue|)])
    decreases |occupied| - i, 1
  {
    if i == |occupied| {
    } else if occupied[i] || queue == [] {
      SweepAlignedSkip(workers, queue, occupied, outbox, i);
    } else {
      SweepAlignedServe(workers, queue, occupied, outbox, i);
    }
  }

  lemma {:induction false} SweepAlignedSkip(workers: seq<ActorRef>, queue: seq<Task>, occupied: seq<bool>, outbox: seq<Msg>, i: nat)
    requires i < |occupied| <= |workers| && (occupied[i] || queue == [])
    ensures var s := SweepFrom(workers, queue, occupied, outbox, i);
            var free := FreeFrom(occupied, i);
            var k := Min(|free|, |queue|);
            && !s.threw
            && s.queue == queue[k..]
            && s.outbox == outbox + Deliveries(workers, free[..k], queue)
            && (forall j :: 0 <= j < |occupied| ==> s.occupied[j] == (occupied[j] || j in free[..k]))
    decreases |occupied| - i, 0
  {
    var s := SweepFrom(workers, queue, occupied, outbox, i);
    var free := FreeFrom(occupied, i);
    var k := Min(|free|, |queue|);
    assert s == SweepFrom(workers, queue, occupied, outbox, i + 1);
    SweepAligned(workers, queue, occupied, outbox, i + 1);
    var rest := FreeFrom(occupied, i + 1);
    if occupied[i] {
      assert free == rest;
    } else {
      assert k == 0 && free[..k] == [] && rest[..Min(|rest|, |queue|)] == [];
    }
  }

  lemma {:induction false} SweepAlignedServe(workers: seq<ActorRef>, queue: seq<Task>, occupied: seq<bool>, outbox: seq<Msg>, i: nat)
    requires i < |occupied| <= |workers| && !occupied[i] && queue != []
    ensures var s := SweepFrom(workers, queue, occupied, outbox, i);
            var free := FreeFrom(occupied, i);
            var k := Min(|free|, |queue|);
            && !s.threw
            && s.queue == queue[k..]
            && s.outbox == outbox + Deliveries(workers, free[..k], queue)
            && (forall j :: 0 <= j < |occupied| ==> s.occupied[j] == (occupied[j] || j in free[..k]))
    decreases |occupied| - i, 0
  {
    var occ1 := occupied[i := true];
    var out1 := outbox + [ToWorker(workers[i], queue[0])];
    var rest := FreeFrom(occupied, i + 1);
    ServeStep(workers, queue, occupied, outbox, i);
    FreeFromFrame(occupied, occ1, i + 1);
    SweepAligned(workers, queue[1..], occ1, out1, i + 1);
    var s := SweepFrom(workers, queue[1..], occ1, out1, i + 1);
    ServeQueue(queue, |rest|);
    ServeOutbox(workers, queue, outbox, i, rest);
    ServeFlags(occupied, i, rest, |queue|, s.occupied);
  }

  /** The delivery to index `i` followed by the deliveries to the first free indices after
      it is the deliveries to the same prefix of `[i] + rest`. */
  lemma ServeOutbox(workers: seq<ActorRef>, queue: seq<Task>, outbox: seq<Msg>, i: nat, rest: seq<nat>)
    requires queue != [] && i < |workers|
    requires forall t :: 0 <= t < |rest| ==> rest[t] < |workers|
    ensures outbox + [ToWorker(workers[i], queue[0])] + Deliveries(workers, rest[..Min(|rest|, |queue| - 1)], queue[1..])
         == outbox + Deliveries(workers, ([i] + rest)[..Min(|rest| + 1, |queue|)], queue)
  {
    var m := Min(|rest|, |queue| - 1);
    assert ([i] + rest)[..m + 1] == [i] + rest[..m];
    ServeAll(workers, queue, outbox, i, rest[..m]);
  }

  /** Serving a free index: the sweep continues from the next index with the head task
      sent, and that index heads the free list. */
  lemma ServeStep(workers: seq<ActorRef>, queue: seq<Task>, occupied: seq<bool>, outbox: seq<Msg>, i: nat)
    requires i < |occupied| && i < |workers| && !occupied[i] && queue != []
    ensures SweepFrom(workers, queue, occupied, outbox, i)
         == SweepFrom(workers, queue[1..], occupied[i := true], outbox + [ToWorker(workers[i], queue[0])], i + 1)
    ensures FreeFrom(occupied, i) == [i] + FreeFrom(occupied, i + 1)
  {
  }

  /** Serving one index and then min(n, |queue| - 1) more leaves the same queue tail as
      serving min(n + 1, |queue|) at once. */
  lemma ServeQueue(queue: seq<Task>, n: nat)
    requires queue != []
    ensures queue[1..][Min(n, |queue| - 1)..] == queue[Min(n + 1, |queue|)..]
  {
  }

  /** Marking `i` and then the first indices of `rest` is marking the same prefix of
      `[i] + rest`. */
  lemma ServeFlags(occupied: seq<bool>, i: nat, rest: seq<nat>, n: nat, flags: seq<bool>)
    requires i < |occupied| == |flags| && 0 < n
    requires forall j :: 0 <= j < |occupied| ==>
               flags[j] == (occupied[i := true][j] || j in rest[..Min(|rest|, n - 1)])
    ensures forall j :: 0 <= j < |occupied| ==>
              flags[j] == (occupied[j] || j in ([i] + rest)[..Min(|rest| + 1, n)])
  {
    var k := Min(|rest|, n - 1);
    assert ([i] + rest)[..Min(|rest| + 1, n)] == [i] + rest[..k];
  }

  /** After a sweep over aligned lists, either the queue is empty or no flag is free. */
  lemma SweepSaturates(workers: seq<ActorRef>, queue: seq<Task>, occupied: seq<bool>, outbox: seq<Msg>)
    requires |occupied| <= |workers|
    ensures var s := SweepFrom(workers, queue, occupied, outbox, 0);
            s.queue == [] || AllOccupied(s.occupied)
  {
    SweepAligned(workers, queue, occupied, outbox, 0);
    var free := FreeFrom(occupied, 0);
    if |free| <= |queue| {
      assert free[..|free|] == free;
      forall j | 0 <= j < |occupied| && !occupied[j]
        ensures j in free
      {
        FreeFromComplete(occupied, 0, j);
      }
    }
  }

  /** Every flag is set. This is what `allWorkersAreFree` computes, despite its name. */
  predicate AllOccupied(occupied: seq<bool>) {
    forall j :: 0 <= j < |occupied| ==> occupied[j]
  }

  /** The sweep over the hint queue (`sendDecryptHintMessage`). */
  function SendHints(p: Pool): Dispatched {
    var s := SweepFrom(p.workers, p.hintQueue, p.occupied, p.outbox, 0);
    Dispatched(p.(hintQueue := s.queue, occupied := s.occupied, outbox := s.outbox), s.threw)
  }

  /** The sweep over the password queue (`sendDecryptPasswordMessage`). */
  function SendPasswords(p: Pool): Dispatched {
    var s := SweepFrom(p.workers, p.passwordQueue, p.occupied, p.outbox, 0);
    Dispatched(p.(passwordQueue := s.queue, occupied := s.occupied, outbox := s.outbox), s.threw)
  }

  /** The password sweep, then (unless it raised) the hint sweep. */
  function SendPasswordsThenHints(p: Pool): Dispatched {
    var d := SendPasswords(p);
    if d.threw then d else SendHints(d.pool)
  }

  /** The pull point after a reply: ask the reader for the next batch when both queues
      are empty. An exception from a sweep ends the handler before this check. */
  function RequestBatchIfDrained(d: Dispatched): (r: Dispatched)
    ensures r.threw == d.threw
    ensures r.pool.(outbox := d.pool.outbox) == d.pool
    ensures (!d.threw && d.pool.hintQueue == [] && d.pool.passwordQueue == [])
            <==> r.pool.outbox == d.pool.outbox + [ReadMessage]
    ensures r.pool.outbox == d.pool.outbox || r.pool.outbox == d.pool.outbox + [ReadMessage]
  {
    if !d.threw && d.pool.hintQueue == [] && d.pool.passwordQueue == []
    then d.(pool := d.pool.(outbox := d.pool.outbox + [ReadMessage]))
    else d
  }

  /** The flags after the reply loop frees every index below `n` whose worker is `sender`
      (the path on which the loop never breaks). */
  function Released(occupied: seq<bool>, workers: seq<ActorRef>, sender: ActorRef, n: nat): (r: seq<bool>)
    requires n <= |workers| && n <= |occupied|
    ensures |r| == |occupied|
    ensures forall j :: 0 <= j < |r| ==> r[j] == (occupied[j] && !(j < n && workers[j] == sender))
  {
    if n == 0 then occupied
    else
      var r := Released(occupied, workers, sender, n - 1);
      if workers[n - 1] == sender then r[n - 1 := false] else r
  }

  /** A sweep over a pool with no free flag changes nothing. */
  lemma {:induction false} SweepIdleWhenFull(workers: seq<ActorRef>, queue: seq<Task>, occupied: seq<bool>, outbox: seq<Msg>, i: nat)
    requires i <= |occupied| && AllOccupied(occupied)
    ensures SweepFrom(workers, queue, occupied, outbox, i) == Swept(queue, occupied, outbox, false)
    decreases |occupied| - i
  {
    if i < |occupied| {
      SweepIdleWhenFull(workers, queue, occupied, outbox, i + 1);
    }
  }

  /** Password tasks go first: over aligned lists neither sweep raises, and the hint sweep
      sends nothing while password tasks are still waiting. */
  lemma PasswordsFirst(p: Pool)
    requires |p.occupied| <= |p.workers|
    ensures var d := SendPasswordsThenHints(p);
            && !d.threw
            && (d.pool.passwordQueue != [] ==> d.pool == SendPasswords(p).pool)
  {
    var d1 := SendPasswords(p);
    SweepAligned(p.workers, p.passwordQueue, p.occupied, p.outbox, 0);
    SweepSaturates(p.workers, p.passwordQueue, p.occupied, p.outbox);
    SweepAligned(d1.pool.workers, d1.pool.hintQueue, d1.pool.occupied, d1.pool.outbox, 0);
    if d1.pool.passwordQueue != [] {
      SweepIdleWhenFull(d1.pool.workers, d1.pool.hintQueue, d1.pool.occupied, d1.pool.outbox, 0);
    }
  }

  /** Lists that line up stay that way under a sweep: it sends a task for every flag it
      sets and sets a flag for every task it sends. */
  lemma AlignedSweepNeverRaises(p: Pool)
    requires |p.occupied| <= |p.workers|
    ensures !SendHints(p).threw && !SendPasswords(p).threw
  {
    SweepAligned(p.workers, p.hintQueue, p.occupied, p.outbox, 0);
    SweepAligned(p.workers, p.passwordQueue, p.occupied, p.outbox, 0);
  }

  /** After a termination the flags no longer belong to the workers listed beside them:
      with workers 1 and 2, worker 1 free and worker 2 busy, removing worker 1 leaves
      worker 2 beside the free flag ... */
  lemma TerminationShiftsWorkers()
    ensures RemoveFirst([1, 2], 1) == [2]
  {
    assert IndexOf([1, 2], 1) == 0;
  }

  /** ... and the next hint task goes to the busy worker 2. */
  lemma TerminationHandsTaskToBusyWorker(t: Task)
    ensures SendHints(Pool([2], [false, true], [t], [], [])).pool.outbox == [ToWorker(2, t)]
  {
    assert [t][1..] == [] && [false, true][0 := true] == [true, true];
    assert SweepFrom([2], [t], [false, true], [], 0) == SweepFrom([2], [], [true, true], [ToWorker(2, t)], 1);
  }

  /** ... and with both flags free, the sweep takes the second task off the queue and then
      fails on `workers.get(1)`: the task is lost. */
  lemma TerminationLosesTask(t1: Task, t2: Task)
    ensures var d := SendHints(Pool([2], [false, false], [t1, t2], [], []));
            && d.threw
            && d.pool.hintQueue == []
            && d.pool.outbox == [ToWorker(2, t1)]
  {
    assert [t1, t2][1..] == [t2];
    assert [t2][1..] == [];
  }
}
