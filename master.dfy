/** The coordinator actor (`Master`) as a sequential state machine: one method per message
    handler, each updating the actor's fields in place and recording every `tell` in an
    outbox. An exception a handler raises ends that handler and is reported as its outcome. */
module MasterActor {
  import opened Lists
  import opened Passwords
  import opened CharacterCombinations
  import opened Dispatching

  /** One input line, already parsed: ID, name, alphabet, password length, encrypted
      password, and the encrypted hints (the line's fields from position 5 on). */
  datatype Line = Line(
    id: int,
    name: string,
    alphabet: seq<char>,
    passwordLength: int,
    encryptedPassword: string,
    hints: seq<string>)

  /** The Java exceptions a handler can end with. */
  datatype JavaException =
    | NegativeArraySize        // the combination generator on an unreachable length
    | IndexOutOfBounds         // `workers.get(i)` in a sweep over misaligned lists
    | ArrayIndexOutOfBounds    // `addDecryptedHint` for a hint the record does not hold
    | NullPointer              // a hint reply whose ID has no record

  datatype Outcome = Completed | Threw(exception: JavaException)

  /** The handler ended with the sweeps' result `d`: its state is `d.pool`, and it raised
      exactly when a sweep did. */
  predicate Settles(p: Pool, outcome: Outcome, d: Dispatched) {
    p == d.pool && outcome == (if d.threw then Threw(IndexOutOfBounds) else Completed)
  }

  /** The tasks for one hint: one per candidate alphabet, in list order. */
  function HintRow(id: int, hint: string, combinations: seq<seq<char>>): (r: seq<Task>)
    ensures |r| == |combinations|
    ensures forall c :: 0 <= c < |r| ==> r[c] == DecryptHintMessage(id, hint, combinations[c])
  {
    seq(|combinations|, c requires 0 <= c < |combinations| => DecryptHintMessage(id, hint, combinations[c]))
  }

  /** The tasks the batch handler enqueues for one record: hint by hint, and for each hint
      one task per candidate alphabet. */
  function HintTasks(id: int, hints: seq<string>, combinations: seq<seq<char>>): seq<Task>
    decreases |hints|
  {
    if hints == [] then []
    else HintTasks(id, hints[..|hints| - 1], combinations) + HintRow(id, hints[|hints| - 1], combinations)
  }

  /** `a * m <= b * m` for `a <= b`. */
  lemma {:induction false} MulMonotone(a: nat, b: nat, m: nat)
    requires a <= b
    ensures a * m <= b * m
    decreases b - a
  {
    if a < b {
      MulMonotone(a, b - 1, m);
      assert b * m == (b - 1) * m + m;
    }
  }

  /** One record yields |hints| * |combinations| tasks. */
  lemma {:induction false} HintTaskCount(id: int, hints: seq<string>, combinations: seq<seq<char>>)
    ensures |HintTasks(id, hints, combinations)| == |hints| * |combinations|
    decreases |hints|
  {
    if hints != [] {
      var n := |hints|;
      HintTaskCount(id, hints[..n - 1], combinations);
      assert (n - 1) * |combinations| + |combinations| == n * |combinations|;
    }
  }

  /** Hint-major, combination-minor order: task number h * |combinations| + c is hint h
      with candidate alphabet c. */
  lemma {:induction false} HintTaskAt(id: int, hints: seq<string>, combinations: seq<seq<char>>, h: nat, c: nat)
    requires h < |hints| && c < |combinations|
    ensures h * |combinations| + c < |HintTasks(id, hints, combinations)|
    ensures HintTasks(id, hints, combinations)[h * |combinations| + c]
         == DecryptHintMessage(id, hints[h], combinations[c])
    decreases |hints|
  {
    var n := |hints|;
    var m := |combinations|;
    var front := HintTasks(id, hints[..n - 1], combinations);
    HintTaskCount(id, hints[..n - 1], combinations);
    HintTaskCount(id, hints, combinations);
    assert h * m + c < n * m by {
      assert (h + 1) * m == h * m + m;
      MulMonotone(h + 1, n, m);
    }
    if h == n - 1 {
      assert h * m == |front|;
    } else {
      assert h * m + c < |front| by {
        assert (h + 1) * m == h * m + m;
        MulMonotone(h + 1, n - 1, m);
      }
      HintTaskAt(id, hints[..n - 1], combinations, h, c);
    }
  }

  /** Every hint task the handler enqueues for the lines of a batch, line by line. */
  function BatchTasks(lines: seq<Line>, combinations: seq<seq<char>>): seq<Task>
    decreases |lines|
  {
    if lines == [] then []
    else
      var n := |lines|;
      BatchTasks(lines[..n - 1], combinations) + HintTasks(lines[n - 1].id, lines[n - 1].hints, combinations)
  }

  /** The tasks of two consecutive runs of lines are those of the first followed by those of
      the second: each line's tasks go behind everything enqueued before it. */
  lemma {:induction false} BatchTasksAppend(a: seq<Line>, b: seq<Line>, combinations: seq<seq<char>>)
    ensures BatchTasks(a + b, combinations) == BatchTasks(a, combinations) + BatchTasks(b, combinations)
    decreases |b|
  {
    if b == [] {
      assert a + b == a;
    } else {
      var n := |b|;
      var ab := a + b;
      var last := HintTasks(b[n - 1].id, b[n - 1].hints, combinations);
      assert ab[..|ab| - 1] == a + b[..n - 1] && ab[|ab| - 1] == b[n - 1];
      assert BatchTasks(ab, combinations) == BatchTasks(a + b[..n - 1], combinations) + last;
      BatchTasksAppend(a, b[..n - 1], combinations);
      assert BatchTasks(b, combinations) == BatchTasks(b[..n - 1], combinations) + last;
    }
  }

  /** A batch of one line enqueues that line's |hints| * |combinations| tasks. */
  lemma OneLineBatch(line: Line, combinations: seq<seq<char>>)
    ensures BatchTasks([line], combinations) == HintTasks(line.id, line.hints, combinations)
    ensures |BatchTasks([line], combinations)| == |line.hints| * |combinations|
  {
    assert [line][..0] == [];
    HintTaskCount(line.id, line.hints, combinations);
  }

  /** The record a line becomes: the batch's alphabet and password length, nothing decrypted. */
  function NewRecord(line: Line, alphabet: seq<char>, passwordLength: int): Record {
    Record(line.id, line.name, passwordLength, alphabet, line.encryptedPassword, "",
           line.hints, seq(|line.hints|, _ => ""))
  }

  /** The IDs the lines carry. */
  function Ids(lines: seq<Line>): set<int> {
    set line | line in lines :: line.id
  }

  /** The records after a batch: each line's record is put under its ID, in line order, so
      a later line replaces an earlier record with the same ID. */
  function BatchRegistry(registry: map<int, Record>, lines: seq<Line>, alphabet: seq<char>, passwordLength: int): (r: map<int, Record>)
    ensures r.Keys == registry.Keys + Ids(lines)
    ensures forall id :: id in registry && id !in Ids(lines) ==> r[id] == registry[id]
    decreases |lines|
  {
    if lines == [] then registry
    else
      var n := |lines|;
      assert lines == lines[..n - 1] + [lines[n - 1]];
      assert Ids(lines) == Ids(lines[..n - 1]) + {lines[n - 1].id};
      BatchRegistry(registry, lines[..n - 1], alphabet, passwordLength)[lines[n - 1].id := NewRecord(lines[n - 1], alphabet, passwordLength)]
  }

  /** The last line carrying an ID decides its record. */
  lemma {:induction false} LastLineWins(registry: map<int, Record>, lines: seq<Line>, alphabet: seq<char>, passwordLength: int, k: nat)
    requires k < |lines|
    requires forall m :: k < m < |lines| ==> lines[m].id != lines[k].id
    ensures BatchRegistry(registry, lines, alphabet, passwordLength)[lines[k].id]
         == NewRecord(lines[k], alphabet, passwordLength)
    decreases |lines|
  {
    var n := |lines|;
    var front := BatchRegistry(registry, lines[..n - 1], alphabet, passwordLength);
    assert BatchRegistry(registry, lines, alphabet, passwordLength)
        == front[lines[n - 1].id := NewRecord(lines[n - 1], alphabet, passwordLength)];
    if k < n - 1 {
      assert lines[..n - 1][k] == lines[k];
      assert lines[n - 1].id != lines[k].id;
      LastLineWins(registry, lines[..n - 1], alphabet, passwordLength, k);
    }
  }

  /** Two records of the map share no object a handler writes. */
  predicate Apart(p: Password, q: Password) {
    && p != q
    && p.hintsDecrypted != q.hintsDecrypted
    && p.hintsDecrypted != q.hintsEncrypted
  }

  /** Every record sits under its own ID, is consistent, and shares no written object
      with another record. */
  ghost predicate Separate(ps: map<int, Password>) {
    && (forall k :: k in ps ==> ps[k].Valid() && ps[k].id == k)
    && (forall k, m :: k in ps && m in ps && k != m ==> Apart(ps[k], ps[m]))
  }

  /** The hint arrays of the records. */
  ghost function HintArrays(ps: map<int, Password>): set<object> {
    (set p | p in ps.Values :: p.hintsEncrypted as object)
    + (set p | p in ps.Values :: p.hintsDecrypted as object)
  }

  /** The value of every record of the map. */
  ghost function Records(ps: map<int, Password>): map<int, Record>
    reads ps.Values, HintArrays(ps)
  {
    map k | k in ps :: ps[k].View()
  }

  /** Putting a record that shares nothing with the map keeps the records separate, and
      changes the value under its ID only. */
  lemma PutRecord(ps: map<int, Password>, p: Password)
    requires Separate(ps) && p.Valid()
    requires p !in ps.Values && p.hintsEncrypted !in HintArrays(ps) && p.hintsDecrypted !in HintArrays(ps)
    ensures Separate(ps[p.id := p])
    ensures Records(ps[p.id := p]) == Records(ps)[p.id := p.View()]
  {
    var qs := ps[p.id := p];
    forall k, m | k in qs && m in qs && k != m
      ensures Apart(qs[k], qs[m])
    {
      if k != p.id && m != p.id {
        assert qs[k] == ps[k] && qs[m] == ps[m];
      } else if k == p.id {
        assert ps[m] in ps.Values;
      } else {
        assert ps[k] in ps.Values;
      }
    }
  }

  /** Every record of `ps` is the one `ps0` held under its ID or was created, together
      with both of its hint arrays, since the earlier state. */
  twostate predicate OnlyNewRecords(ps0: map<int, Password>, new ps: map<int, Password>) {
    forall k :: k in ps ==>
      || (k in ps0 && ps[k] == ps0[k])
      || (fresh(ps[k]) && fresh(ps[k].hintsEncrypted) && fresh(ps[k].hintsDecrypted))
  }

  /** A record after the hint reply loop: the decrypted value is written when the sender
      was found among the workers. */
  function Hinted(r: Record, written: bool, encrypted: string, decrypted: string): Record
    requires |r.hintsDecrypted| == |r.hintsEncrypted|
  {
    if written then r.(hintsDecrypted := WithHint(r.hintsEncrypted, r.hintsDecrypted, encrypted, decrypted))
    else r
  }

  class Master {
    var passwordLength: int                 // -1 until the first batch has been read
    var chars: seq<char>                    // `charactersInPassword`
    var combinations: seq<seq<char>>        // `possibleCombinationsForHintsList`
    var passwords: map<int, Password>       // `ID_PasswordHashMap`
    var hintQueue: seq<Task>                // `hintCrackingQueue`, head first
    var passwordQueue: seq<Task>            // `passwordCrackingQueue`, head first
    var workers: seq<ActorRef>
    var occupied: seq<bool>                 // `workerOccupied`
    var outbox: seq<Msg>

    /** The flag list is never shorter than the worker list (registration grows both,
        termination shrinks only `workers`), and the records are separate. */
    ghost predicate Valid()
      reads this`workers, this`occupied, this`passwords
    {
      |workers| <= |occupied| && Separate(passwords)
    }

    function State(): Pool
      reads this`workers, this`occupied, this`hintQueue, this`passwordQueue, this`outbox
    {
      Pool(workers, occupied, hintQueue, passwordQueue, outbox)
    }

    /** The value of every record in the map. */
    ghost function Registry(): map<int, Record>
      reads this`passwords, passwords.Values, HintArrays(passwords)
    {
      Records(passwords)
    }

    constructor ()
      ensures Valid()
      ensures State() == Pool([], [], [], [], [])
      ensures passwordLength == -1 && combinations == [] && passwords == map[]
    {
      passwordLength := -1;
      chars := [];
      combinations := [];
      passwords := map[];
      hintQueue := [];
      passwordQueue := [];
      workers := [];
      occupied := [];
      outbox := [];
    }

    /** The loop of `sendDecryptHintMessage` and `sendDecryptPasswordMessage` over `queue`:
        every free index in ascending order takes the head of the queue, the worker at that
        index is sent the task, and the flag is set. */
    method Sweep(queue: seq<Task>) returns (rest: seq<Task>, threw: bool)
      modifies this`occupied, this`outbox
      ensures var s := SweepFrom(workers, queue, old(occupied), old(outbox), 0);
              rest == s.queue && occupied == s.occupied && outbox == s.outbox && threw == s.threw
    {
      rest, threw := queue, false;
      var i := 0;
      while i < |occupied|
        invariant 0 <= i <= |occupied| == |old(occupied)|
        invariant SweepFrom(workers, rest, occupied, outbox, i)
               == SweepFrom(workers, queue, old(occupied), old(outbox), 0)
      {
        if !occupied[i] {
          // `remove()` on an empty queue raises NoSuchElementException, which is caught
          if rest != [] {
            var task := rest[0];
            rest := rest[1..];
            if |workers| <= i {
              threw := true;
              return;
            }
            outbox := outbox + [ToWorker(workers[i], task)];
            occupied := occupied[i := true];
          }
        }
        i := i + 1;
      }
    }

    /** `sendDecryptHintMessage`. */
    method SendDecryptHintMessage() returns (threw: bool)
      modifies this`occupied, this`outbox, this`hintQueue
      ensures State() == SendHints(old(State())).pool && threw == SendHints(old(State())).threw
    {
      hintQueue, threw := Sweep(hintQueue);
    }

    /** `sendDecryptPasswordMessage`. */
    method SendDecryptPasswordMessage() returns (threw: bool)
      modifies this`occupied, this`outbox, this`passwordQueue
      ensures State() == SendPasswords(old(State())).pool && threw == SendPasswords(old(State())).threw
    {
      passwordQueue, threw := Sweep(passwordQueue);
    }

    /** `allWorkersAreFree`: true exactly when every flag is set, so when no worker is free. */
    method AllWorkersAreFree() returns (r: bool)
      ensures r <==> AllOccupied(occupied)
    {
      var i := 0;
      while i < |occupied|
        invariant 0 <= i <= |occupied|
        invariant forall j :: 0 <= j < i ==> occupied[j]
      {
        if !occupied[i] {
          return false;
        }
        i := i + 1;
      }
      return true;
    }

    /** `handle(RegistrationMessage)`: the sender joins with a free flag. */
    method HandleRegistration(sender: ActorRef)
      requires Valid()
      modifies this`workers, this`occupied
      ensures Valid()
      ensures workers == old(workers) + [sender] && occupied == old(occupied) + [false]
    {
      workers := workers + [sender];
      occupied := occupied + [false];
    }

    /** `handle(Terminated)`: the first occurrence of the actor leaves `workers`; the flags
        stay as they are, so every later flag now sits beside the next worker. */
    method HandleTerminated(actor: ActorRef)
      requires Valid()
      modifies this`workers
      ensures Valid()
      ensures workers == RemoveFirst(old(workers), actor)
    {
      workers := RemoveFirst(workers, actor);
    }

    /** `handle(WorkerAvailableMessageToMaster)`: the first index holding the sender is
        freed, then the password sweep runs, then the hint sweep. */
    method HandleWorkerAvailable(sender: ActorRef) returns (outcome: Outcome)
      requires Valid()
      modifies this`occupied, this`outbox, this`hintQueue, this`passwordQueue
      ensures Valid()
      ensures var i := IndexOf(old(workers), sender);
              if i == -1 then State() == old(State()) && outcome == Completed
              else Settles(State(), outcome, SendPasswordsThenHints(old(State()).(occupied := old(occupied)[i := false])))
    {
      var i := 0;
      while i < |workers|
        invariant 0 <= i <= |workers|
        invariant sender !in workers[..i]
      {
        if sender == workers[i] {
          IndexOfFirst(workers, sender, i);
          occupied := occupied[i := false];
          var threw := SendPasswordThenHintMessages();
          return if threw then Threw(IndexOutOfBounds) else Completed;
        }
        i := i + 1;
      }
      assert workers[..i] == workers;
      return Completed;
    }

    /** The inner loops of the batch handler for one record: hint by hint, one task per
        candidate alphabet. */
    method EnqueueHintTasks(password: Password)
      modifies this`hintQueue
      ensures hintQueue == old(hintQueue) + HintTasks(password.id, password.hintsEncrypted[..], combinations)
    {
      var hints := password.hintsEncrypted;
      var i := 0;
      while i < hints.Length
        invariant 0 <= i <= hints.Length
        invariant hintQueue == old(hintQueue) + HintTasks(password.id, hints[..i], combinations)
      {
        var j := 0;
        while j < |combinations|
          invariant 0 <= j <= |combinations|
          invariant hintQueue == old(hintQueue) + HintTasks(password.id, hints[..i], combinations)
                                 + HintRow(password.id, hints[i], combinations[..j])
        {
          hintQueue := hintQueue + [DecryptHintMessage(password.id, hints[i], combinations[j])];
          j := j + 1;
        }
        assert combinations[..j] == combinations;
        assert hints[..i + 1][..i] == hints[..i];
        i := i + 1;
      }
      assert hints[..i] == hints[..];
    }

    /** One line of a batch: a new record with the batch's alphabet and password length is
        put under the line's ID (replacing any record there), then its hint tasks are
        enqueued. */
    method AddLine(line: Line)
      requires Valid()
      modifies this`passwords, this`hintQueue
      ensures Valid()
      ensures Registry() == old(Registry())[line.id := NewRecord(line, chars, passwordLength)]
      ensures line.id in passwords && passwords == old(passwords)[line.id := passwords[line.id]]
      ensures fresh(passwords[line.id]) && fresh(passwords[line.id].hintsEncrypted)
              && fresh(passwords[line.id].hintsDecrypted)
      ensures hintQueue == old(hintQueue) + HintTasks(line.id, line.hints, combinations)
    {
      var password := PutNewRecord(line);
      EnqueueHintTasks(password);
    }

    /** `put` of a new record built from the line. */
    method PutNewRecord(line: Line) returns (password: Password)
      requires Valid()
      modifies this`passwords
      ensures Valid()
      ensures Registry() == old(Registry())[line.id := NewRecord(line, chars, passwordLength)]
      ensures passwords == old(passwords)[line.id := password]
      ensures fresh(password) && fresh(password.hintsEncrypted) && fresh(password.hintsDecrypted)
      ensures password.id == line.id && password.hintsEncrypted[..] == line.hints
    {
      ghost var before := Registry();
      password := new Password(line.id, line.name, line.encryptedPassword, line.hints, chars, passwordLength);
      assert Registry() == before;
      PutRecord(passwords, password);
      passwords := passwords[password.id := password];
    }

    /** The loop of the batch handler over its lines. */
    method AddLines(lines: seq<Line>)
      requires Valid()
      modifies this`passwords, this`hintQueue
      ensures Valid()
      ensures Registry() == BatchRegistry(old(Registry()), lines, chars, passwordLength)
      ensures OnlyNewRecords(old(passwords), passwords)
      ensures forall id :: id in old(passwords) && id !in Ids(lines) ==>
                id in passwords && passwords[id] == old(passwords)[id]
      ensures hintQueue == old(hintQueue) + BatchTasks(lines, combinations)
    {
      var k := 0;
      while k < |lines|
        invariant 0 <= k <= |lines|
        invariant Valid()
        invariant Registry() == BatchRegistry(old(Registry()), lines[..k], chars, passwordLength)
        invariant OnlyNewRecords(old(passwords), passwords)
        invariant forall id :: id in old(passwords) && id !in Ids(lines[..k]) ==>
                    id in passwords && passwords[id] == old(passwords)[id]
        invariant hintQueue == old(hintQueue) + BatchTasks(lines[..k], combinations)
      {
        assert Ids(lines[..k + 1]) == Ids(lines[..k]) + {lines[k].id};
        AddLine(lines[k]);
        assert lines[..k + 1][..k] == lines[..k];
        k := k + 1;
      }
      assert lines[..k] == lines;
    }

    /** The first batch fixes the password length and the alphabet from its first line
        and runs the combination generator; `ok` is false where the generator raises. */
    method Configure(line: Line) returns (ok: bool)
      modifies this`passwordLength, this`chars, this`combinations
      ensures passwordLength == line.passwordLength && chars == line.alphabet
      ensures combinations == old(combinations) + Combinations(chars, passwordLength)
      ensures ok <==> 0 <= passwordLength < |chars|
      ensures Registry() == old(Registry())
    {
      passwordLength := line.passwordLength;
      chars := line.alphabet;
      ok, combinations := GetCharacterCombinations(chars, passwordLength, combinations);
    }

    /** The end of the batch handler: one sweep, over the password queue if it holds
        anything and over the hint queue otherwise, then the batch size and a print
        request to the collector. */
    method DispatchBatch(size: nat) returns (outcome: Outcome)
      modifies this`occupied, this`outbox, this`hintQueue, this`passwordQueue
      ensures var p := old(State());
              var d := if p.passwordQueue == [] then SendHints(p) else SendPasswords(p);
              if d.threw then State() == d.pool && outcome == Threw(IndexOutOfBounds)
              else State() == d.pool.(outbox := d.pool.outbox + [CollectBatchProcessed(size), PrintMessage])
                   && outcome == Completed
      ensures Registry() == old(Registry())
    {
      var threw;
      if passwordQueue == [] {
        threw := SendDecryptHintMessage();
      } else {
        threw := SendDecryptPasswordMessage();
      }
      if threw {
        return Threw(IndexOutOfBounds);
      }
      outbox := outbox + [CollectBatchProcessed(size), PrintMessage];
      return Completed;
    }

    /** `handle(BatchMessage)`. An empty batch ends the run. While the password length
        is still -1, a batch fixes the alphabet and password length from its first line and
        fills the combination list;
        every line becomes a record with its hint tasks; then one sweep runs (passwords if
        any are waiting, hints otherwise) and the collector is told the batch size. */
    method HandleBatch(lines: seq<Line>) returns (outcome: Outcome)
      requires Valid()
      modifies this`passwordLength, this`chars, this`combinations, this`passwords
      modifies this`hintQueue, this`passwordQueue, this`occupied, this`outbox
      ensures Valid()
      ensures OnlyNewRecords(old(passwords), passwords)
      ensures forall id :: id in old(passwords) && id !in Ids(lines) ==>
                id in passwords && passwords[id] == old(passwords)[id]
      ensures lines == [] ==>
                && outcome == Completed
                && State() == old(State()).(outbox := old(outbox) + [PrintMessage, Terminate])
                && passwords == old(passwords)
                && passwordLength == old(passwordLength) && chars == old(chars)
                && combinations == old(combinations)
      ensures lines != [] && old(passwordLength) == -1 ==>
                && passwordLength == lines[0].passwordLength && chars == lines[0].alphabet
                && combinations == old(combinations) + Combinations(chars, passwordLength)
      ensures lines != [] && old(passwordLength) != -1 ==>
                passwordLength == old(passwordLength) && chars == old(chars) && combinations == old(combinations)
      ensures lines != [] && old(passwordLength) == -1 && !(0 <= lines[0].passwordLength < |lines[0].alphabet|) ==>
                && outcome == Threw(NegativeArraySize)
                && State() == old(State()) && passwords == old(passwords)
      ensures lines != [] && (old(passwordLength) != -1 || 0 <= lines[0].passwordLength < |lines[0].alphabet|) ==>
                && Registry() == BatchRegistry(old(Registry()), lines, chars, passwordLength)
                && var p := old(State()).(hintQueue := old(hintQueue) + BatchTasks(lines, combinations));
                   var d := if p.passwordQueue == [] then SendHints(p) else SendPasswords(p);
                   if d.threw then State() == d.pool && outcome == Threw(IndexOutOfBounds)
                   else State() == d.pool.(outbox := d.pool.outbox + [CollectBatchProcessed(|lines|), PrintMessage])
                        && outcome == Completed
    {
      if lines == [] {
        outbox := outbox + [PrintMessage, Terminate];
        return Completed;
      }
      if passwordLength == -1 {
        var ok := Configure(lines[0]);
        if !ok {
          return Threw(NegativeArraySize);
        }
      }
      AddLines(lines);
      assert State() == old(State()).(hintQueue := old(hintQueue) + BatchTasks(lines, combinations));
      outcome := DispatchBatch(|lines|);
    }

    /** The password sweep followed, unless it raised, by the hint sweep. */
    method SendPasswordThenHintMessages() returns (threw: bool)
      modifies this`occupied, this`outbox, this`hintQueue, this`passwordQueue
      ensures State() == SendPasswordsThenHints(old(State())).pool
      ensures threw == SendPasswordsThenHints(old(State())).threw
      ensures Registry() == old(Registry())
    {
      threw := SendDecryptPasswordMessage();
      if !threw {
        threw := SendDecryptHintMessage();
      }
    }

    /** The end of both reply handlers: when both queues are empty the reader is asked
        for the next batch. */
    method RequestBatchIfIdle()
      modifies this`outbox
      ensures State() == RequestBatchIfDrained(Dispatched(old(State()), false)).pool
      ensures Registry() == old(Registry())
    {
      if passwordQueue == [] && hintQueue == [] {
        outbox := outbox + [ReadMessage];
      }
    }

    /** The scan both reply loops share. Without `stop` every index holding the sender is
        freed; with `stop` the first index holding the sender ends the scan and no flag
        changes. The result is that index, or |workers| when the scan runs through. */
    method ScanWorkers(sender: ActorRef, stop: bool) returns (i: int)
      requires |workers| <= |occupied|
      modifies this`occupied
      ensures 0 <= i <= |workers|
      ensures i < |workers| <==> stop && sender in workers
      ensures occupied == if stop then old(occupied) else Released(old(occupied), workers, sender, |workers|)
    {
      i := 0;
      while i < |workers|
        invariant 0 <= i <= |workers|
        invariant stop ==> sender !in workers[..i] && occupied == old(occupied)
        invariant !stop ==> occupied == Released(old(occupied), workers, sender, i)
      {
        if sender == workers[i] {
          if stop {
            return;
          }
          occupied := occupied[i := false];
        }
        i := i + 1;
      }
      assert workers[..i] == workers;
    }

    /** `addDecryptedHint` on the record under `id`: no other record is written, so only
        that record's decrypted hints change. `ok` is false where the hint is absent and
        the write raises. */
    method StoreHint(id: int, encrypted: string, decrypted: string) returns (ok: bool)
      requires Valid() && id in passwords
      modifies passwords[id].hintsDecrypted
      ensures Valid()
      ensures ok <==> encrypted in old(Registry())[id].hintsEncrypted
      ensures |old(Registry())[id].hintsDecrypted| == |old(Registry())[id].hintsEncrypted|
      ensures Registry() == old(Registry())[id := Hinted(old(Registry())[id], true, encrypted, decrypted)]
    {
      ghost var before := Registry();
      var p := passwords[id];
      assert before[id] == p.View();
      ok := p.AddDecryptedHint(encrypted, decrypted);
      forall k | k in passwords && k != id
        ensures passwords[k].View() == before[k]
      {
        assert Apart(passwords[k], p) && Apart(p, passwords[k]);
      }
    }

    /** The loop of the hint reply handler. For a known ID the first index holding the
        sender records the decrypted hint and ends the loop, leaving every flag set; for
        an unknown ID every index holding the sender is freed. `ok` is false where
        `addDecryptedHint` raises. */
    method RecordHint(sender: ActorRef, id: int, encrypted: string, decrypted: string) returns (ok: bool)
      requires Valid()
      modifies this`occupied, if id in passwords then {passwords[id].hintsDecrypted} else {}
      ensures Valid()
      ensures id !in passwords ==>
                && ok && occupied == Released(old(occupied), workers, sender, |workers|)
                && Registry() == old(Registry())
      ensures id in passwords ==>
                && occupied == old(occupied)
                && (ok <==> sender !in workers || encrypted in old(Registry())[id].hintsEncrypted)
                && |old(Registry())[id].hintsDecrypted| == |old(Registry())[id].hintsEncrypted|
                && Registry() == old(Registry())[id := Hinted(old(Registry())[id], sender in workers, encrypted, decrypted)]
    {
      ghost var before := Registry();
      var i := ScanWorkers(sender, id in passwords);
      assert Registry() == before;
      if i < |workers| {
        ok := StoreHint(id, encrypted, decrypted);
      } else {
        ok := true;
      }
    }

    /** The record under `id` is queued for cracking as a shallow clone. */
    method EnqueueClone(id: int) returns (clone: Password)
      requires Valid() && id in passwords
      modifies this`passwordQueue
      ensures fresh(clone) && clone.Valid() && clone.View() == passwords[id].View()
      ensures clone.hintsEncrypted == passwords[id].hintsEncrypted
      ensures clone.hintsDecrypted == passwords[id].hintsDecrypted
      ensures passwordQueue == old(passwordQueue) + [GoCrackPasswordMessage(clone)]
      ensures Registry() == old(Registry())
    {
      clone := new Password.Clone(passwords[id]);
      passwordQueue := passwordQueue + [GoCrackPasswordMessage(clone)];
    }

    /** After the loop of the hint reply handler: a resolved record is cloned into the
        password queue and both sweeps run, otherwise only the hint sweep; then the
        reader is asked for more when both queues are empty. */
    method DispatchAfterHint(id: int) returns (outcome: Outcome, ghost enqueued: Password?)
      requires Valid() && id in passwords
      modifies this`occupied, this`outbox, this`hintQueue, this`passwordQueue
      ensures Valid() && Registry() == old(Registry())
      ensures (enqueued != null) == Resolved(Registry()[id].hintsDecrypted)
      ensures enqueued != null ==>
                && fresh(enqueued) && enqueued.Valid() && enqueued.View() == Registry()[id]
                && enqueued.hintsEncrypted == passwords[id].hintsEncrypted
                && enqueued.hintsDecrypted == passwords[id].hintsDecrypted
                && Settles(State(), outcome, RequestBatchIfDrained(SendPasswordsThenHints(
                     old(State()).(passwordQueue := old(passwordQueue) + [GoCrackPasswordMessage(enqueued)]))))
      ensures enqueued == null ==>
                Settles(State(), outcome, RequestBatchIfDrained(SendHints(old(State()))))
    {
      enqueued := null;
      var resolved := passwords[id].AllHintsDecrypted();
      var threw;
      if resolved {
        var clone := EnqueueClone(id);
        enqueued := clone;
        threw := SendPasswordThenHintMessages();
      } else {
        threw := SendDecryptHintMessage();
      }
      if threw {
        return Threw(IndexOutOfBounds), enqueued;
      }
      RequestBatchIfIdle();
      return Completed, enqueued;
    }

    /** `handle(Worker.DecryptedHint)`. An unknown ID frees the sender's flags and then
        fails on the map lookup; a known ID records the hint (when the sender is a
        listed worker), re-queues the record for cracking whenever all of its hints are
        decrypted, and dispatches. */
    method HandleDecryptedHint(sender: ActorRef, id: int, encrypted: string, decrypted: string)
      returns (outcome: Outcome, ghost enqueued: Password?)
      requires Valid()
      modifies this`occupied, this`outbox, this`hintQueue, this`passwordQueue
      modifies if id in passwords then {passwords[id].hintsDecrypted} else {}
      ensures Valid()
      ensures id !in passwords ==>
                && outcome == Threw(NullPointer)
                && State() == old(State()).(occupied := Released(old(occupied), workers, sender, |workers|))
      ensures id in passwords && sender in workers && encrypted !in passwords[id].hintsEncrypted[..] ==>
                && outcome == Threw(ArrayIndexOutOfBounds)
                && State() == old(State()) && Registry() == old(Registry())
      ensures id in passwords && (sender !in workers || encrypted in passwords[id].hintsEncrypted[..]) ==>
                && |old(Registry())[id].hintsDecrypted| == |old(Registry())[id].hintsEncrypted|
                && Registry() == old(Registry())[id := Hinted(old(Registry())[id], sender in workers, encrypted, decrypted)]
                && (enqueued != null <==> Resolved(Registry()[id].hintsDecrypted))
                && (enqueued != null ==>
                      && fresh(enqueued) && enqueued.Valid() && enqueued.View() == Registry()[id]
                      && enqueued.hintsEncrypted == passwords[id].hintsEncrypted
                      && enqueued.hintsDecrypted == passwords[id].hintsDecrypted
                      && Settles(State(), outcome, RequestBatchIfDrained(SendPasswordsThenHints(
                           old(State()).(passwordQueue := old(passwordQueue) + [GoCrackPasswordMessage(enqueued)])))))
                && (enqueued == null ==>
                      Settles(State(), outcome, RequestBatchIfDrained(SendHints(old(State())))))
    {
      enqueued := null;
      if id !in passwords {
        var _ := RecordHint(sender, id, encrypted, decrypted);
        return Threw(NullPointer), null;
      }
      var ok := RecordHint(sender, id, encrypted, decrypted);
      if !ok {
        return Threw(ArrayIndexOutOfBounds), null;
      }
      outcome, enqueued := DispatchAfterHint(id);
    }

    /** `setDecryptedPassword` on the record under `id`: no other record and no hint
        array is written, so only that record's decrypted password changes. */
    method StorePassword(id: int, password: string)
      requires Valid() && id in passwords
      modifies passwords[id]
      ensures Valid()
      ensures Registry() == old(Registry())[id := old(Registry())[id].(decryptedPassword := password)]
    {
      ghost var before := Registry();
      passwords[id].decryptedPassword := password;
      forall k | k in passwords && k != id
        ensures passwords[k].View() == before[k]
      {
        assert Apart(passwords[k], passwords[id]);
      }
    }

    /** The write of a solved password, and its report to the collector. */
    method ReportPassword(id: int, password: string)
      requires Valid() && id in passwords
      modifies this`outbox, passwords[id]
      ensures Valid()
      ensures outbox == old(outbox) + [CollectDecryptedPassword(old(Registry())[id].name, id, password), PrintMessage]
      ensures Registry() == old(Registry())[id := old(Registry())[id].(decryptedPassword := password)]
    {
      StorePassword(id, password);
      outbox := outbox + [CollectDecryptedPassword(passwords[id].name, passwords[id].id, password), PrintMessage];
    }

    /** The loop of the password reply handler. For a known ID and a non-empty password the
        first index holding the sender stores the password, tells the collector, and ends
        the loop, leaving every flag set; otherwise every index holding the sender is freed
        and no record changes. */
    method RecordPassword(sender: ActorRef, id: int, password: string) returns (solved: bool)
      requires Valid()
      modifies this`occupied, this`outbox, if id in passwords then {passwords[id]} else {}
      ensures Valid()
      ensures solved <==> id in passwords && password != "" && sender in workers
      ensures solved ==>
                && State() == old(State()).(outbox := old(outbox) + [CollectDecryptedPassword(old(Registry())[id].name, id, password), PrintMessage])
                && Registry() == old(Registry())[id := old(Registry())[id].(decryptedPassword := password)]
      ensures !solved ==>
                && State() == old(State()).(occupied := Released(old(occupied), workers, sender, |workers|))
                && Registry() == old(Registry())
    {
      ghost var before := Registry();
      var i := ScanWorkers(sender, id in passwords && password != "");
      assert Registry() == before;
      if i < |workers| {
        ReportPassword(id, password);
        return true;
      }
      return false;
    }

    /** `handle(Worker.PasswordCompleteMessage)`: the loop above, then the password sweep,
        the hint sweep, and a request for more input when both queues are empty. */
    method HandlePasswordComplete(sender: ActorRef, id: int, password: string) returns (outcome: Outcome)
      requires Valid()
      modifies this`occupied, this`outbox, this`hintQueue, this`passwordQueue
      modifies if id in passwords then {passwords[id]} else {}
      ensures Valid()
      ensures var solved := id in passwords && password != "" && sender in workers;
              && Registry() == (if solved then old(Registry())[id := old(Registry())[id].(decryptedPassword := password)]
                                else old(Registry()))
              && Settles(State(), outcome, RequestBatchIfDrained(SendPasswordsThenHints(
                   if solved
                   then old(State()).(outbox := old(outbox) + [CollectDecryptedPassword(old(Registry())[id].name, id, password), PrintMessage])
                   else old(State()).(occupied := Released(old(occupied), workers, sender, |workers|)))))
    {
      var _ := RecordPassword(sender, id, password);
      var threw := SendPasswordThenHintMessages();
      if threw {
        return Threw(IndexOutOfBounds);
      }
      RequestBatchIfIdle();
      return Completed;
    }
  }
}
