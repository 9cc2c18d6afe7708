/** The pool of worker threads: two queues, a condition variable and a pipe, as
    interleaved steps of any number of workers and callers.

    Everything between taking and leaving the mutex is one step, except in
    `sel_thread_result`, which reads the pipe while it holds the mutex; there the
    mutex stays taken between two steps. */
module SelThread {
  import opened Wrappers

  /** Where a worker is.  `Testing`: on its way to the test of the input queue, at
      the start of its loop or woken up.  `Asleep`: in the wait, not signalled.
      `Posting`: its item is in the output queue, its byte not yet in the pipe. */
  datatype Worker<T> = Testing | Asleep | Busy(item: T) | Posting | Gone

  /** Both queues are newest first.  `reader` is the item that a caller of
      `sel_thread_result` has taken and now reads a byte for, holding the mutex.
      The last four components are history. */
  datatype Pool<T> = Pool(
    input: seq<T>,
    output: seq<T>,
    stop: bool,
    over: bool,
    workers: seq<Worker<T>>,
    pipe: nat,
    reader: Option<T>,
    added: seq<T>,
    taken: seq<T>,
    returned: seq<T>,
    destroyed: seq<T>)

  /** `Add` carries the worker that the signal wakes, if any is asleep. */
  datatype Action<T> =
    | Add(item: T, wake: nat)
    | Spurious(w: nat)
    | Test(w: nat)
    | PutBack(w: nat)
    | Post(w: nat)
    | TakeResult
    | ReadByte
    | Stop
    | Destroy

  function Init<T>(n: nat): (r: Pool<T>)
  {
    Pool([], [], false, false, seq(n, _ => Testing), 0, None, [], [], [], [])
  }

  predicate Free<T>(s: Pool<T>)
  {
    s.reader.None? && !s.over
  }

  ghost predicate SomeAsleep<T>(ws: seq<Worker<T>>)
  {
    exists i :: 0 <= i < |ws| && ws[i].Asleep?
  }

  /** When a step can happen: what waits for the mutex, the condition or the pipe
      happens only when that is there. */
  ghost predicate Enabled<T>(s: Pool<T>, a: Action<T>)
  {
    match a
    case Add(_, wake) => Free(s) && (SomeAsleep(s.workers) ==> wake < |s.workers| && s.workers[wake].Asleep?)
    case Spurious(w) => w < |s.workers| && s.workers[w].Asleep?
    case Test(w) => Free(s) && w < |s.workers| && s.workers[w].Testing?
    case PutBack(w) => Free(s) && w < |s.workers| && s.workers[w].Busy?
    case Post(w) => w < |s.workers| && s.workers[w].Posting?
    case TakeResult => Free(s) && s.output != []
    case ReadByte => s.reader.Some? && s.pipe > 0
    case Stop => Free(s)
    case Destroy => Free(s) && s.stop && forall i :: 0 <= i < |s.workers| ==> s.workers[i].Gone?
  }

  function WakeAll<T>(ws: seq<Worker<T>>): (r: seq<Worker<T>>)
  {
    seq(|ws|, i requires 0 <= i < |ws| => if ws[i].Asleep? then Testing else ws[i])
  }

  ghost function Step<T>(s: Pool<T>, a: Action<T>): (t: Pool<T>)
    requires Enabled(s, a)
  {
    match a
    case Add(x, wake) =>
      s.(input := [x] + s.input, added := s.added + [x],
         workers := if SomeAsleep(s.workers) then s.workers[wake := Testing] else s.workers)
    case Spurious(w) => s.(workers := s.workers[w := Testing])
    case Test(w) =>
      if s.stop then s.(workers := s.workers[w := Gone])
      else if s.input == [] then s.(workers := s.workers[w := Asleep])
      else
        var n := |s.input| - 1;
        s.(workers := s.workers[w := Busy(s.input[n])], input := s.input[..n], taken := s.taken + [s.input[n]])
    case PutBack(w) =>
      s.(workers := s.workers[w := Posting], output := [s.workers[w].item] + s.output)
    case Post(w) => s.(workers := s.workers[w := Testing], pipe := s.pipe + 1)
    case TakeResult =>
      var n := |s.output| - 1;
      s.(output := s.output[..n], reader := Some(s.output[n]))
    case ReadByte =>
      s.(pipe := s.pipe - 1, reader := None, returned := s.returned + [s.reader.value])
    case Stop => s.(stop := true, workers := WakeAll(s.workers))
    case Destroy =>
      s.(over := true, destroyed := s.input + s.output, input := [], output := [])
  }

  /** The states of a run: each step enabled where it happens. */
  ghost predicate IsRun<T>(s: Pool<T>, actions: seq<Action<T>>)
    decreases |actions|
  {
    actions == [] || (Enabled(s, actions[0]) && IsRun(Step(s, actions[0]), actions[1..]))
  }

  ghost function After<T>(s: Pool<T>, actions: seq<Action<T>>): (t: Pool<T>)
    requires IsRun(s, actions)
    decreases |actions|
  {
    if actions == [] then s else After(Step(s, actions[0]), actions[1..])
  }

  // ----- Counting workers ----------------------------------------------------

  ghost function TestingCount<T>(ws: seq<Worker<T>>): nat
  {
    if ws == [] then 0 else (if ws[0].Testing? then 1 else 0) + TestingCount(ws[1..])
  }

  ghost function PostingCount<T>(ws: seq<Worker<T>>): nat
  {
    if ws == [] then 0 else (if ws[0].Posting? then 1 else 0) + PostingCount(ws[1..])
  }

  /** How often `x` is in the hands of the workers. */
  ghost function InHands<T>(ws: seq<Worker<T>>, x: T): nat
  {
    if ws == [] then 0 else InHand(ws[0], x) + InHands(ws[1..], x)
  }

  ghost function InHand<T>(w: Worker<T>, x: T): nat
  {
    if w.Busy? && w.item == x then 1 else 0
  }

  /** How many steps a worker takes to its end once the pool is stopping. */
  ghost function Rank<T>(w: Worker<T>): nat
  {
    match w
    case Busy(_) => 3
    case Posting => 2
    case Testing => 1
    case Asleep => 1
    case Gone => 0
  }

  ghost function TotalRank<T>(ws: seq<Worker<T>>): nat
  {
    if ws == [] then 0 else Rank(ws[0]) + TotalRank(ws[1..])
  }

  lemma {:induction false} CountUpdate<T>(ws: seq<Worker<T>>, i: nat, w: Worker<T>)
    requires i < |ws|
    ensures TestingCount(ws[i := w]) ==
      TestingCount(ws) - (if ws[i].Testing? then 1 else 0) + (if w.Testing? then 1 else 0)
    ensures PostingCount(ws[i := w]) ==
      PostingCount(ws) - (if ws[i].Posting? then 1 else 0) + (if w.Posting? then 1 else 0)
    ensures TotalRank(ws[i := w]) == TotalRank(ws) - Rank(ws[i]) + Rank(w)
  {
    if i == 0 {
      assert ws[i := w][1..] == ws[1..];
    } else {
      assert ws[i := w][1..] == ws[1..][i - 1 := w];
      CountUpdate(ws[1..], i - 1, w);
    }
  }

  lemma {:induction false} HandsUpdate<T>(ws: seq<Worker<T>>, i: nat, w: Worker<T>, x: T)
    requires i < |ws|
    ensures InHands(ws[i := w], x) == InHands(ws, x) - InHand(ws[i], x) + InHand(w, x)
  {
    if i == 0 {
      assert ws[i := w][1..] == ws[1..];
    } else {
      assert ws[i := w][1..] == ws[1..][i - 1 := w];
      HandsUpdate(ws[1..], i - 1, w, x);
    }
  }

  lemma {:induction false} WakeAllCounts<T(!new)>(ws: seq<Worker<T>>)
    ensures PostingCount(WakeAll(ws)) == PostingCount(ws)
    ensures TotalRank(WakeAll(ws)) == TotalRank(ws)
    ensures forall x :: InHands(WakeAll(ws), x) == InHands(ws, x)
  {
    if ws != [] {
      assert WakeAll(ws)[1..] == WakeAll(ws[1..]);
      WakeAllCounts(ws[1..]);
    }
  }

  lemma {:induction false} FreshCounts<T(!new)>(n: nat)
    ensures var ws := seq(n, _ => Worker<T>.Testing);
      PostingCount(ws) == 0 && TestingCount(ws) == n && forall x :: InHands(ws, x) == 0
  {
    if n > 0 {
      assert seq(n, _ => Worker<T>.Testing)[1..] == seq(n - 1, _ => Worker<T>.Testing);
      FreshCounts<T>(n - 1);
    }
  }

  lemma {:induction false} PostingExists<T>(ws: seq<Worker<T>>) returns (w: nat)
    requires PostingCount(ws) > 0
    ensures w < |ws| && ws[w].Posting?
  {
    if ws[0].Posting? {
      w := 0;
    } else {
      w := PostingExists(ws[1..]);
      w := w + 1;
    }
  }

  lemma {:induction false} TestingExists<T>(ws: seq<Worker<T>>) returns (w: nat)
    requires TestingCount(ws) > 0
    ensures w < |ws| && ws[w].Testing?
  {
    if ws[0].Testing? {
      w := 0;
    } else {
      w := TestingExists(ws[1..]);
      w := w + 1;
    }
  }

  lemma {:induction false} HandsGone<T(!new)>(ws: seq<Worker<T>>)
    requires forall i :: 0 <= i < |ws| ==> ws[i].Gone?
    ensures PostingCount(ws) == 0 && forall x :: InHands(ws, x) == 0
  {
    if ws != [] {
      HandsGone(ws[1..]);
    }
  }

  // ----- The invariant -------------------------------------------------------

  lemma {:induction false} ReverseInit<T>(s: seq<T>)
    requires s != []
    ensures Reverse(s) == [s[|s| - 1]] + Reverse(s[..|s| - 1])
  {
    if |s| > 1 {
      ReverseInit(s[1..]);
      assert s[..|s| - 1][1..] == s[1..][..|s| - 2];
      assert s[..|s| - 1][0] == s[0] && s[1..][|s| - 2] == s[|s| - 1];
      assert Reverse(s[..|s| - 1]) == Reverse(s[1..][..|s| - 2]) + [s[0]];
    } else {
      assert s == [s[0]];
    }
  }

  /** How often `x` is in the pool: waiting, being worked on, finished, or about to be
      handed out. */
  ghost function Inside<T>(s: Pool<T>, x: T): nat
  {
    multiset(s.input)[x] + InHands(s.workers, x) + multiset(s.output)[x] + (if s.reader == Some(x) then 1 else 0)
  }

  ghost predicate Balanced<T>(s: Pool<T>, x: T)
  {
    multiset(s.added)[x] == Inside(s, x) + multiset(s.returned)[x] + multiset(s.destroyed)[x]
  }

  /** Each item added is in exactly one place, as often as it was added. */
  ghost predicate Conserved<T(!new)>(s: Pool<T>)
  {
    forall x :: Balanced(s, x)
  }

  /** Bytes written or about to be written match results present or being handed out. */
  ghost predicate BytesMatch<T>(s: Pool<T>)
  {
    !s.over ==> s.pipe + PostingCount(s.workers) == |s.output| + (if s.reader.Some? then 1 else 0)
  }

  /** If a worker sleeps unsignalled, the queue is no longer than the number of workers
      on their way to test it. */
  ghost predicate NoLostWakeup<T>(s: Pool<T>)
  {
    !s.stop && SomeAsleep(s.workers) ==> |s.input| <= TestingCount(s.workers)
  }

  ghost predicate StopWakes<T>(s: Pool<T>)
  {
    s.stop ==> !SomeAsleep(s.workers)
  }

  /** Items leave the input queue in the order in which they were added. */
  ghost predicate FirstInFirstOut<T>(s: Pool<T>)
  {
    !s.over ==> s.taken + Reverse(s.input) == s.added
  }

  ghost predicate Closed<T>(s: Pool<T>)
  {
    && (!s.over ==> s.destroyed == [])
    && (s.over ==>
          && s.stop && s.reader.None? && s.input == [] && s.output == []
          && forall i :: 0 <= i < |s.workers| ==> s.workers[i].Gone?)
  }

  ghost predicate Inv<T(!new)>(s: Pool<T>)
  {
    && Conserved(s) && BytesMatch(s) && NoLostWakeup(s) && StopWakes(s) && FirstInFirstOut(s) && Closed(s)
  }

  lemma InitInv<T(!new)>(n: nat)
    ensures Inv(Init<T>(n))
  {
    FreshCounts<T>(n);
  }

  lemma StepBytes<T(!new)>(s: Pool<T>, a: Action<T>)
    requires BytesMatch(s) && Closed(s) && Enabled(s, a)
    ensures BytesMatch(Step(s, a))
  {
    match a {
      case Add(_, wake) => if SomeAsleep(s.workers) { CountUpdate(s.workers, wake, Testing); }
      case Spurious(w) => CountUpdate(s.workers, w, Testing);
      case Test(w) => CountUpdate(s.workers, w, Step(s, a).workers[w]);
      case PutBack(w) => CountUpdate(s.workers, w, Posting);
      case Post(w) => CountUpdate(s.workers, w, Testing);
      case Stop => WakeAllCounts(s.workers);
      case _ =>
    }
  }

  lemma StepWakeup<T>(s: Pool<T>, a: Action<T>)
    requires NoLostWakeup(s) && StopWakes(s) && Closed(s) && Enabled(s, a)
    ensures NoLostWakeup(Step(s, a)) && StopWakes(Step(s, a))
  {
    var t := Step(s, a);
    match a {
      case Add(_, wake) => if SomeAsleep(s.workers) { CountUpdate(s.workers, wake, Testing); }
      case Spurious(w) => CountUpdate(s.workers, w, Testing);
      case Test(w) => CountUpdate(s.workers, w, t.workers[w]);
      case PutBack(w) => CountUpdate(s.workers, w, Posting);
      case Post(w) => CountUpdate(s.workers, w, Testing);
      case _ =>
    }
    if SomeAsleep(t.workers) {
      var i :| 0 <= i < |t.workers| && t.workers[i].Asleep?;
      assert !a.Stop?;
      assert s.workers[i].Asleep? || (a.Test? && a.w == i && s.input == [] && !s.stop);
    }
  }

  lemma StepFifo<T>(s: Pool<T>, a: Action<T>)
    requires FirstInFirstOut(s) && Closed(s) && Enabled(s, a)
    ensures FirstInFirstOut(Step(s, a))
  {
    match a {
      case Add(x, _) =>
        assert ([x] + s.input)[1..] == s.input;
        assert s.taken + (Reverse(s.input) + [x]) == (s.taken + Reverse(s.input)) + [x];
      case Test(_) =>
        if !s.stop && s.input != [] {
          var n := |s.input| - 1;
          ReverseInit(s.input);
          assert s.taken + [s.input[n]] + Reverse(s.input[..n]) == s.taken + ([s.input[n]] + Reverse(s.input[..n]));
        }
      case _ =>
    }
  }

  lemma SplitLast<T>(q: seq<T>, x: T)
    requires q != []
    ensures multiset(q)[x] == multiset(q[..|q| - 1])[x] + (if q[|q| - 1] == x then 1 else 0)
  {
    assert q == q[..|q| - 1] + [q[|q| - 1]];
  }

  lemma QueueSteps<T(!new)>(s: Pool<T>, a: Action<T>, x: T)
    requires Balanced(s, x) && Closed(s) && Enabled(s, a)
    requires a.TakeResult? || a.ReadByte? || a.Destroy?
    ensures Balanced(Step(s, a), x)
  {
    match a {
      case TakeResult => SplitLast(s.output, x);
      case ReadByte =>
      case Destroy => HandsGone(s.workers);
    }
  }

  lemma WorkerSteps<T(!new)>(s: Pool<T>, a: Action<T>, x: T)
    requires Balanced(s, x) && Enabled(s, a)
    requires a.Test? || a.PutBack? || a.Post?
    ensures Balanced(Step(s, a), x)
  {
    HandsUpdate(s.workers, a.w, Step(s, a).workers[a.w], x);
    if a.Test? && !s.stop && s.input != [] { SplitLast(s.input, x); }
  }

  lemma SignalSteps<T(!new)>(s: Pool<T>, a: Action<T>, x: T)
    requires Balanced(s, x) && Enabled(s, a)
    requires a.Add? || a.Spurious? || a.Stop?
    ensures Balanced(Step(s, a), x)
  {
    match a {
      case Add(_, wake) => if SomeAsleep(s.workers) { HandsUpdate(s.workers, wake, Testing, x); }
      case Spurious(w) => HandsUpdate(s.workers, w, Testing, x);
      case Stop => WakeAllCounts(s.workers);
    }
  }

  lemma StepBalanced<T(!new)>(s: Pool<T>, a: Action<T>, x: T)
    requires Balanced(s, x) && Closed(s) && Enabled(s, a)
    ensures Balanced(Step(s, a), x)
  {
    if a.Test? || a.PutBack? || a.Post? {
      WorkerSteps(s, a, x);
    } else if a.Add? || a.Spurious? || a.Stop? {
      SignalSteps(s, a, x);
    } else {
      QueueSteps(s, a, x);
    }
  }

  /** Every step keeps the invariant. */
  lemma StepInv<T(!new)>(s: Pool<T>, a: Action<T>)
    requires Inv(s) && Enabled(s, a)
    ensures Inv(Step(s, a))
  {
    StepBytes(s, a);
    StepWakeup(s, a);
    StepFifo(s, a);
    forall x ensures Balanced(Step(s, a), x) { StepBalanced(s, a, x); }
  }

  /** The invariant holds after every run of any number of workers. */
  lemma {:induction false} RunInv<T(!new)>(s: Pool<T>, actions: seq<Action<T>>)
    requires Inv(s) && IsRun(s, actions)
    ensures Inv(After(s, actions))
    decreases |actions|
  {
    if actions != [] {
      StepInv(s, actions[0]);
      RunInv(Step(s, actions[0]), actions[1..]);
    }
  }

  /** From the start, with any number of workers, every run keeps it. */
  lemma EveryRun<T(!new)>(threads: nat, actions: seq<Action<T>>)
    requires IsRun(Init<T>(threads), actions)
    ensures Inv(After(Init<T>(threads), actions))
  {
    InitInv<T>(threads);
    RunInv(Init<T>(threads), actions);
  }

  // ----- What the invariant promises -----------------------------------------

  /** Work never waits for sleepers: with an item in the queue and a worker asleep
      there is a worker on its way to the queue. */
  lemma WorkIsPickedUp<T(!new)>(s: Pool<T>) returns (w: nat)
    requires Inv(s) && !s.stop && s.input != [] && s.workers != []
    ensures w < |s.workers| && !s.workers[w].Asleep?
    ensures SomeAsleep(s.workers) ==> s.workers[w].Testing?
  {
    if SomeAsleep(s.workers) {
      w := TestingExists(s.workers);
    } else {
      w := 0;
    }
  }

  /** A finished item has a byte in the pipe or a worker about to write one, so the
      poll on the pipe will see it. */
  lemma ResultIsAnnounced<T(!new)>(s: Pool<T>)
    requires Inv(s) && s.output != []
    ensures s.pipe > 0 || exists w :: Enabled(s, Post(w))
  {
    if s.pipe == 0 {
      var w := PostingExists(s.workers);
      assert Enabled(s, Post(w));
    }
  }

  /** A caller that reads the pipe while it holds the mutex is always released: the
      byte is there, or a worker that needs no mutex is about to write it. */
  lemma ReaderIsReleased<T(!new)>(s: Pool<T>) returns (w: nat)
    requires Inv(s) && s.reader.Some?
    ensures Enabled(s, ReadByte) || (Enabled(s, Post(w)) && Enabled(Step(s, Post(w)), ReadByte))
  {
    w := 0;
    if s.pipe == 0 {
      w := PostingExists(s.workers);
    }
  }

  /** When the pool has been destroyed, every item added was returned or left to the
      destroyer, as often as it was added, and never both. */
  lemma ShutdownBalance<T(!new)>(s: Pool<T>, x: T)
    requires Inv(s) && s.over
    ensures multiset(s.added)[x] == multiset(s.returned)[x] + multiset(s.destroyed)[x]
  {
    HandsGone(s.workers);
    assert Balanced(s, x);
  }

  predicate IsWorkerStep<T>(a: Action<T>)
  {
    a.Test? || a.PutBack? || a.Post?
  }

  function WorkerStepCount<T>(actions: seq<Action<T>>): (n: nat)
  {
    if actions == [] then 0 else (if IsWorkerStep(actions[0]) then 1 else 0) + WorkerStepCount(actions[1..])
  }

  lemma StoppedStep<T(!new)>(s: Pool<T>, a: Action<T>)
    requires Inv(s) && s.stop && Enabled(s, a)
    ensures var t := Step(s, a);
      && t.stop && t.taken == s.taken && |t.workers| == |s.workers|
      && TotalRank(t.workers) + (if IsWorkerStep(a) then 1 else 0) == TotalRank(s.workers)
  {
    match a {
      case Test(w) => CountUpdate(s.workers, w, Gone);
      case PutBack(w) => CountUpdate(s.workers, w, Posting);
      case Post(w) => CountUpdate(s.workers, w, Testing);
      case Stop => WakeAllCounts(s.workers);
      case _ =>
    }
  }

  /** Once the pool is stopping no worker takes another item, and the workers together
      take exactly as many steps as their ranks allow: each finishes its current item,
      writes its byte, and leaves at its next test. */
  lemma {:induction false} StoppedRun<T(!new)>(s: Pool<T>, actions: seq<Action<T>>)
    requires Inv(s) && s.stop && IsRun(s, actions)
    ensures After(s, actions).taken == s.taken
    ensures WorkerStepCount(actions) + TotalRank(After(s, actions).workers) == TotalRank(s.workers)
    decreases |actions|
  {
    if actions != [] {
      StoppedStep(s, actions[0]);
      StepInv(s, actions[0]);
      StoppedRun(Step(s, actions[0]), actions[1..]);
    }
  }

  /** While a worker has not left, a stopping pool is not stuck: a worker can take its
      step, or a reader that holds the mutex can be released. */
  lemma StoppedProgress<T(!new)>(s: Pool<T>, w: nat)
    requires Inv(s) && s.stop && w < |s.workers| && !s.workers[w].Gone?
    ensures (exists a :: IsWorkerStep(a) && Enabled(s, a)) || Enabled(s, ReadByte)
  {
    if s.reader.Some? {
      var v := ReaderIsReleased(s);
      assert IsWorkerStep<T>(Post(v));
    } else {
      assert !s.workers[w].Asleep?;
      var a: Action<T> := if s.workers[w].Testing? then Test(w) else if s.workers[w].Busy? then PutBack(w) else Post(w);
      assert IsWorkerStep(a) && Enabled(s, a);
    }
  }

  // ----- One worker ----------------------------------------------------------

  ghost function HandSeq<T>(w: Worker<T>): seq<T>
  {
    if w.Busy? then [w.item] else []
  }

  ghost function ReaderSeq<T>(s: Pool<T>): seq<T>
  {
    if s.reader.Some? then [s.reader.value] else []
  }

  /** With one worker the results come back in the order in which the items were taken,
      which is the order in which they were added. */
  ghost predicate InOrder<T>(s: Pool<T>)
  {
    && |s.workers| == 1
    && (!s.over ==> s.returned + ReaderSeq(s) + Reverse(s.output) + HandSeq(s.workers[0]) == s.taken)
  }

  lemma ReversePush<T>(front: seq<T>, output: seq<T>, x: T)
    ensures front + Reverse([x] + output) + [] == front + Reverse(output) + [x]
  {
    assert ([x] + output)[1..] == output;
  }

  lemma ReversePop<T>(front: seq<T>, output: seq<T>, rear: seq<T>)
    requires output != []
    ensures var n := |output| - 1;
      front + [output[n]] + Reverse(output[..n]) + rear == front + [] + Reverse(output) + rear
  {
    hide Reverse;
    ReverseInit(output);
    Regroup(front, output[|output| - 1], Reverse(output[..|output| - 1]));
  }

  lemma Regroup<T>(front: seq<T>, x: T, rest: seq<T>)
    ensures front + [x] + rest == front + [] + ([x] + rest)
  {
  }

  lemma InOrderStep<T(!new)>(s: Pool<T>, a: Action<T>)
    requires InOrder(s) && Enabled(s, a)
    ensures InOrder(Step(s, a))
  {
    hide Reverse;
    match a {
      case PutBack(w) =>
        ReversePush(s.returned + ReaderSeq(s), s.output, s.workers[0].item);
      case TakeResult =>
        ReversePop(s.returned, s.output, HandSeq(s.workers[0]));
      case ReadByte =>
        assert s.returned + [s.reader.value] == (s.returned + [s.reader.value]) + [];
      case _ =>
    }
  }

  /** After any run of a pool with one worker, what was returned is a prefix of what was
      added. */
  lemma {:induction false} OneWorkerOrder<T(!new)>(s: Pool<T>, actions: seq<Action<T>>)
    requires Inv(s) && InOrder(s) && IsRun(s, actions)
    ensures InOrder(After(s, actions))
    ensures var t := After(s, actions); !t.over ==> t.returned <= t.added
    decreases |actions|
  {
    if actions != [] {
      StepInv(s, actions[0]);
      InOrderStep(s, actions[0]);
      OneWorkerOrder(Step(s, actions[0]), actions[1..]);
    }
  }

  /** From the start, the results of a single worker are the first items added, in order. */
  lemma EveryOneWorkerRun<T(!new)>(actions: seq<Action<T>>)
    requires IsRun(Init<T>(1), actions)
    ensures var t := After(Init<T>(1), actions); !t.over ==> t.returned <= t.added
  {
    InitInv<T>(1);
    OneWorkerOrder(Init<T>(1), actions);
  }

  // ----- The pool object -----------------------------------------------------

  /** `queue_remove_last`: the oldest item and the rest of the queue. */
  method QueueRemoveLast<T>(q: seq<T>) returns (rest: seq<T>, last: Option<T>)
    ensures last.None? <==> q == []
    ensures last.Some? ==> q == rest + [last.value]
    ensures last.None? ==> rest == []
  {
    if q == [] {
      return [], None;
    }
    var i := 0;
    while i + 1 < |q|
      invariant 0 <= i < |q|
    {
      i := i + 1;
    }
    rest, last := q[..i], Some(q[i]);
  }

  /** The pool with its critical sections.  `state` is the abstract state they step. */
  class SelThreadPool<T(!new)> {
    var inputQueue: seq<T>
    var outputQueue: seq<T>
    var stopFlag: bool
    ghost var state: Pool<T>

    ghost predicate Valid()
      reads this
    {
      && inputQueue == state.input && outputQueue == state.output && stopFlag == state.stop
      && Inv(state)
    }

    constructor (ghost threads: nat)
      ensures Valid() && state == Init(threads)
    {
      inputQueue, outputQueue, stopFlag := [], [], false;
      state := Init(threads);
      new;
      InitInv<T>(threads);
    }

    /** `sel_thread_add`. */
    method AddItem(x: T, ghost wake: nat)
      requires Valid() && Enabled(state, Add(x, wake))
      modifies this
      ensures Valid() && state == Step(old(state), Add(x, wake))
    {
      StepInv(state, Add(x, wake));
      inputQueue := [x] + inputQueue;
      state := Step(state, Add(x, wake));
    }

    /** The part of `sel_thread_handler` from the test of the queue to the release of the
        mutex.  The worker leaves, waits, or has an item. */
    method TakeItem(ghost w: nat) returns (item: Option<T>)
      requires Valid() && Enabled(state, Action<T>.Test(w))
      modifies this
      ensures Valid() && state == Step(old(state), Action<T>.Test(w))
      ensures item.Some? <==> !stopFlag && old(inputQueue) != []
      ensures item.Some? ==> state.workers[w] == Busy(item.value)
    {
      ghost var a: Action<T> := Test(w);
      StepInv(state, a);
      item := None;
      if !stopFlag && inputQueue != [] {
        inputQueue, item := QueueRemoveLast(inputQueue);
        assert state.input[..|state.input| - 1] == inputQueue;
      }
      state := Step(state, a);
    }

    /** The part of `sel_thread_handler` that puts a finished item into the output queue. */
    method PutBackItem(x: T, ghost w: nat)
      requires Valid() && Enabled(state, Action<T>.PutBack(w)) && state.workers[w].item == x
      modifies this
      ensures Valid() && state == Step(old(state), Action<T>.PutBack(w))
    {
      ghost var a: Action<T> := PutBack(w);
      StepInv(state, a);
      outputQueue := [x] + outputQueue;
      state := Step(state, a);
    }

    /** The part of `sel_thread_destroy` that stops the workers. */
    method StopWorkers()
      requires Valid() && Enabled(state, Action<T>.Stop)
      modifies this
      ensures Valid() && state == Step(old(state), Stop)
    {
      StepInv(state, Stop);
      stopFlag := true;
      state := Step(state, Stop);
    }

    /** `sel_thread_result` up to the read: nothing, or the oldest result. */
    method TakeResultItem() returns (item: Option<T>)
      requires Valid() && Free(state)
      modifies this
      ensures Valid()
      ensures item.None? ==> state == old(state) && state.output == []
      ensures item.Some? ==>
        Enabled(old(state), TakeResult) && state == Step(old(state), TakeResult) && state.reader == item
    {
      ghost var s := state;
      outputQueue, item := QueueRemoveLast(outputQueue);
      if item.Some? {
        StepInv(s, TakeResult);
        assert s.output[..|s.output| - 1] == outputQueue;
        state := Step(s, TakeResult);
      }
    }
  }
}
