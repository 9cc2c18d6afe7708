/** The event loop in threaded mode: the loop thread, the workers of the pool, and
    anybody who adds a channel or marks one destroyed, as interleaved steps. */
module EventLoop {
  import opened Wrappers
  import opened SelThread

  /** What the loop keeps of a channel: `thread_users` and `destroyed`. */
  datatype Chan = Chan(users: int, destroyed: bool)

  /** Where the loop thread is.  `Counted` and `Filled`: after the loops that count and
      fill the poll slots.  `Draining`: taking results from the pool.  `Firing(p)`: at
      channel `p` of the walk that fires events.  `Reaping(i)`: at position `i` of the
      walk that frees channels, holding the list mutex. */
  datatype Phase =
    | Top
    | Counted(slots: nat)
    | Filled
    | Draining
    | Firing(p: Option<nat>)
    | Reaping(i: nat)
    | Finished

  /** `list` is the channel list, newest first; `start` the head read at the top of the
      round; `offset` the poll slot of each channel and `slot` the channel of each poll
      slot.  Slot 0 is the pipe of the pool.  Channels not in `chans` are freed. */
  datatype Loop = Loop(
    list: seq<nat>,
    start: Option<nat>,
    phase: Phase,
    chans: map<nat, Chan>,
    offset: map<nat, nat>,
    slot: seq<Option<nat>>,
    pool: Pool<nat>)

  datatype Event =
    | AddChannel(c: nat)
    | MarkDestroyed(c: nat)
    | PoolStep(a: Action<nat>)
    | Begin
    | FillSlots
    | PollInterrupted
    | PollReturns(readable: bool)
    | TakeDone
    | ReadDone
    | DrainEnds
    | Fire(fires: bool, wake: nat)
    | FireEnds
    | Reap
    | ReapEnds

  // ----- The chain of channels -----------------------------------------------

  /** The channels met when following `next` from `p`. */
  ghost function ChainFrom(list: seq<nat>, p: Option<nat>): (r: seq<nat>)
  {
    if p.None? || list == [] then []
    else if list[0] == p.value then list
    else ChainFrom(list[1..], p)
  }

  function Head(list: seq<nat>): (r: Option<nat>)
  {
    if list == [] then None else Some(list[0])
  }

  /** Prepending a channel does not change the chain from an older one. */
  lemma PrependKeepsChain(list: seq<nat>, p: Option<nat>, c: nat)
    requires p != Some(c)
    ensures ChainFrom([c] + list, p) == ChainFrom(list, p)
  {
    assert ([c] + list)[1..] == list;
  }

  lemma {:induction false} ChainFromHead(list: seq<nat>, p: nat)
    requires p in list
    ensures ChainFrom(list, Some(p)) != [] && ChainFrom(list, Some(p))[0] == p
    ensures forall c :: c in ChainFrom(list, Some(p)) ==> c in list
    ensures NoTwice(list) ==> NoTwice(ChainFrom(list, Some(p)))
  {
    if list[0] != p {
      ChainFromHead(list[1..], p);
    }
  }

  /** The chain from a channel of a chain is part of that chain. */
  lemma {:induction false} ChainWithin(list: seq<nat>, p: nat, q: nat)
    requires NoTwice(list) && p in list && q in ChainFrom(list, Some(p))
    ensures q in list
    ensures forall c :: c in ChainFrom(list, Some(q)) ==> c in ChainFrom(list, Some(p))
  {
    if list[0] == p {
      ChainFromHead(list, q);
    } else {
      ChainFromHead(list[1..], p);
      ChainWithin(list[1..], p, q);
      assert q in list[1..];
    }
  }

  /** The channel after `p`: what `p->next` leads to. */
  ghost function Next(list: seq<nat>, p: nat): (r: Option<nat>)
  {
    var chain := ChainFrom(list, Some(p));
    if |chain| > 1 then Some(chain[1]) else None
  }

  // ----- Steps ---------------------------------------------------------------

  function Users(s: Loop, c: nat): int
  {
    if c in s.chans then s.chans[c].users else 0
  }

  ghost predicate Enabled(s: Loop, e: Event)
  {
    match e
    case AddChannel(c) => !s.phase.Reaping? && c !in s.chans && c !in s.list
    case MarkDestroyed(c) => c in s.chans
    case PoolStep(a) => (a.Spurious? || a.Test? || a.PutBack? || a.Post?) && SelThread.Enabled(s.pool, a)
    case Begin => s.phase.Top?
    case FillSlots => s.phase.Counted?
    case PollInterrupted => s.phase.Filled?
    case PollReturns(readable) => s.phase.Filled? && (readable <==> s.pool.pipe > 0)
    case TakeDone => s.phase.Draining? && SelThread.Enabled(s.pool, TakeResult)
    case ReadDone => s.phase.Draining? && SelThread.Enabled(s.pool, ReadByte)
    case DrainEnds => s.phase.Draining? && Free(s.pool) && s.pool.output == []
    case Fire(_, wake) => s.phase.Firing? && s.phase.p.Some? && s.phase.p.value in s.chans
      && SelThread.Enabled(s.pool, Add(s.phase.p.value, wake))
    case FireEnds => s.phase == Firing(None)
    case Reap => s.phase.Reaping? && s.phase.i < |s.list| && s.list[s.phase.i] in s.chans
    case ReapEnds => s.phase.Reaping? && s.phase.i >= |s.list|
  }

  /** Where the loop goes at its end: round again while there are channels. */
  function Again(s: Loop): (p: Phase)
  {
    if s.list == [] then Finished else Top
  }

  /** One round of the walk that fires events: a channel that is destroyed or in use is
      skipped, another one is handed to the pool if it has an event to fire. */
  ghost function FireAt(s: Loop, p: nat, fires: bool, wake: nat): (t: Loop)
    requires p in s.chans && SelThread.Enabled(s.pool, Add(p, wake))
  {
    var next := s.(phase := Firing(Next(s.list, p)));
    if s.chans[p].destroyed || s.chans[p].users > 0 || !fires then next
    else
      next.(chans := s.chans[p := s.chans[p].(users := s.chans[p].users + 1)],
            pool := SelThread.Step(s.pool, Add(p, wake)))
  }

  ghost function Step(s: Loop, e: Event): (t: Loop)
    requires Enabled(s, e)
  {
    match e
    case AddChannel(c) => s.(list := [c] + s.list, chans := s.chans[c := Chan(0, false)])
    case MarkDestroyed(c) => s.(chans := s.chans[c := s.chans[c].(destroyed := true)])
    case PoolStep(a) => s.(pool := SelThread.Step(s.pool, a))
    case Begin =>
      s.(start := Head(s.list), phase := Counted(1 + |ChainFrom(s.list, Head(s.list))|))
    case FillSlots =>
      var chain := ChainFrom(s.list, s.start);
      s.(phase := Filled,
         offset := map p | p in chain :: IndexOf(chain, p) + 1,
         slot := [None] + seq(|chain|, i requires 0 <= i < |chain| => Some(chain[i])))
    case PollInterrupted => s.(phase := Again(s))
    case PollReturns(readable) =>
      if readable then s.(phase := Draining) else s.(phase := Firing(s.start))
    case TakeDone => s.(pool := SelThread.Step(s.pool, TakeResult))
    case ReadDone =>
      var c := s.pool.reader.value;
      s.(pool := SelThread.Step(s.pool, ReadByte),
         chans := if c in s.chans then s.chans[c := s.chans[c].(users := s.chans[c].users - 1)] else s.chans)
    case DrainEnds => s.(phase := Firing(s.start))
    case Fire(fires, wake) => FireAt(s, s.phase.p.value, fires, wake)
    case FireEnds => s.(phase := Reaping(0))
    case Reap =>
      var i := s.phase.i;
      var c := s.list[i];
      if s.chans[c].destroyed && s.chans[c].users == 0
      then s.(list := s.list[..i] + s.list[i + 1..], chans := s.chans - {c})
      else s.(phase := Reaping(i + 1))
    case ReapEnds => s.(phase := Again(s))
  }

  ghost function IndexOf(chain: seq<nat>, p: nat): (i: nat)
    requires p in chain
    ensures i < |chain| && chain[i] == p
  {
    if chain[0] == p then 0 else IndexOf(chain[1..], p) + 1
  }

  // ----- The invariant -------------------------------------------------------

  /** The list and the channels: each channel once, all of them allocated. */
  ghost predicate Listed(s: Loop)
  {
    && NoTwice(s.list)
    && (forall c :: c in s.list <==> c in s.chans)
  }

  /** `thread_users` is the number of the channel's items in the pool, and at most one.
      The pool holds no item of a freed channel. */
  ghost predicate UsersCounted(s: Loop)
  {
    forall c :: Users(s, c) == Inside(s.pool, c) <= 1
  }

  /** What the walks rely on: the list they started from is still there. */
  ghost predicate WalkSafe(s: Loop)
  {
    && (s.phase.Counted? || s.phase.Filled? || s.phase.Draining? || s.phase.Firing? ==>
          s.start.Some? ==> s.start.value in s.list)
    && (s.phase.Firing? && s.phase.p.Some? ==> s.phase.p.value in ChainFrom(s.list, s.start))
  }

  /** The number of slots counted is the number that will be filled. */
  ghost predicate SlotsMatch(s: Loop)
  {
    && (s.phase.Counted? ==> s.phase.slots == 1 + |ChainFrom(s.list, s.start)|)
    && (s.phase.Filled? || s.phase.Draining? || s.phase.Firing? ==>
          var chain := ChainFrom(s.list, s.start);
          && |s.slot| == 1 + |chain|
          && (forall p :: p in chain ==>
                p in s.offset && 0 < s.offset[p] < |s.slot| && s.slot[s.offset[p]] == Some(p)))
  }

  /** The pool has no reader except while the loop drains it. */
  ghost predicate ReaderIsLoop(s: Loop)
  {
    (s.pool.reader.Some? ==> s.phase.Draining?) && !s.pool.over && !s.pool.stop
  }

  ghost predicate Inv(s: Loop)
  {
    Listed(s) && UsersCounted(s) && WalkSafe(s) && SlotsMatch(s) && ReaderIsLoop(s) && SelThread.Inv(s.pool)
  }

  ghost function Start(threads: nat, list: seq<nat>): (s: Loop)
  {
    Loop(list, None, Top, map c | c in list :: Chan(0, false), map[], [], Init(threads))
  }

  lemma StartInv(threads: nat, list: seq<nat>)
    requires NoTwice(list)
    ensures Inv(Start(threads, list))
  {
    InitInv<nat>(threads);
    FreshCounts<nat>(threads);
  }

  // ----- Each kind of step ---------------------------------------------------

  /** A pool step of a worker moves items about inside the pool. */
  lemma WorkerKeepsInside(s: Pool<nat>, a: Action<nat>, x: nat)
    requires SelThread.Inv(s) && SelThread.Enabled(s, a) && (a.Spurious? || a.Test? || a.PutBack? || a.Post?)
    ensures var t := SelThread.Step(s, a);
      && Inside(t, x) == Inside(s, x) && t.reader == s.reader && t.over == s.over && t.stop == s.stop
  {
    StepBalanced(s, a, x);
    assert Balanced(s, x);
  }

  lemma AddIntoPool(s: Pool<nat>, c: nat, wake: nat, x: nat)
    requires SelThread.Inv(s) && SelThread.Enabled(s, Add(c, wake))
    ensures Inside(SelThread.Step(s, Add(c, wake)), x) == Inside(s, x) + (if x == c then 1 else 0)
  {
    StepBalanced(s, Add(c, wake), x);
    assert Balanced(s, x);
  }

  lemma TakeKeepsInside(s: Pool<nat>, x: nat)
    requires SelThread.Inv(s) && SelThread.Enabled(s, TakeResult)
    ensures Inside(SelThread.Step(s, TakeResult), x) == Inside(s, x)
  {
    StepBalanced(s, TakeResult, x);
    assert Balanced(s, x);
  }

  lemma ReadTakesOut(s: Pool<nat>, x: nat)
    requires SelThread.Inv(s) && SelThread.Enabled(s, ReadByte)
    ensures Inside(SelThread.Step(s, ReadByte), x) == Inside(s, x) - (if s.reader == Some(x) then 1 else 0)
  {
    StepBalanced(s, ReadByte, x);
    assert Balanced(s, x);
  }

  lemma PoolStepInv(s: Loop, a: Action<nat>)
    requires Inv(s) && Enabled(s, PoolStep(a))
    ensures Inv(Step(s, PoolStep(a)))
  {
    StepInv(s.pool, a);
    forall c ensures Users(s, c) == Inside(SelThread.Step(s.pool, a), c) <= 1 {
      WorkerKeepsInside(s.pool, a, c);
    }
    WorkerKeepsInside(s.pool, a, 0);
  }

  lemma FireInv(s: Loop, fires: bool, wake: nat)
    requires Inv(s) && Enabled(s, Fire(fires, wake))
    ensures Inv(Step(s, Fire(fires, wake)))
  {
    var p := s.phase.p.value;
    var t := Step(s, Fire(fires, wake));
    ChainWithin(s.list, s.start.value, p);
    ChainFromHead(s.list, p);
    StepInv(s.pool, Add(p, wake));
    forall c ensures Users(t, c) == Inside(t.pool, c) <= 1 {
      AddIntoPool(s.pool, p, wake, c);
    }
  }

  lemma DrainInv(s: Loop, e: Event)
    requires Inv(s) && Enabled(s, e) && (e.TakeDone? || e.ReadDone?)
    ensures Inv(Step(s, e))
  {
    var t := Step(s, e);
    StepInv(s.pool, if e.TakeDone? then TakeResult else ReadByte);
    forall c ensures Users(t, c) == Inside(t.pool, c) <= 1 {
      if e.TakeDone? { TakeKeepsInside(s.pool, c); } else { ReadTakesOut(s.pool, c); }
    }
  }

  lemma AddChannelInv(s: Loop, c: nat)
    requires Inv(s) && Enabled(s, AddChannel(c))
    ensures Inv(Step(s, AddChannel(c)))
  {
    var t := Step(s, AddChannel(c));
    assert Users(s, c) == 0;
    assert forall x :: x in t.list <==> x == c || x in s.list;
    assert forall x :: Users(t, x) == Users(s, x);
    if s.start != Some(c) { PrependKeepsChain(s.list, s.start, c); }
  }

  lemma FillInv(s: Loop)
    requires Inv(s) && Enabled(s, FillSlots)
    ensures Inv(Step(s, FillSlots))
    ensures |Step(s, FillSlots).slot| == s.phase.slots
  {
    var t := Step(s, FillSlots);
    var chain := ChainFrom(s.list, s.start);
    forall p | p in chain
      ensures p in t.offset && 0 < t.offset[p] < |t.slot| && t.slot[t.offset[p]] == Some(p)
    {
      assert chain[IndexOf(chain, p)] == p;
    }
  }

  lemma ReapInv(s: Loop)
    requires Inv(s) && Enabled(s, Reap)
    ensures Inv(Step(s, Reap))
  {
    var t, i := Step(s, Reap), s.phase.i;
    var c := s.list[i];
    if s.chans[c].destroyed && s.chans[c].users == 0 {
      forall x ensures x in t.list <==> x in s.list && x != c {
        if x in s.list && x != c {
          var j :| 0 <= j < |s.list| && s.list[j] == x;
          assert t.list[if j < i then j else j - 1] == x;
        }
      }
      assert Users(s, c) == 0;
      assert forall x :: Users(t, x) == Users(s, x);
    }
  }

  lemma BeginInv(s: Loop)
    requires Inv(s) && Enabled(s, Begin)
    ensures Inv(Step(s, Begin))
  {
  }

  lemma WalkStartsInv(s: Loop, e: Event)
    requires Inv(s) && Enabled(s, e) && (e.PollReturns? || e.DrainEnds?)
    ensures Inv(Step(s, e))
  {
    if s.start.Some? { ChainFromHead(s.list, s.start.value); }
  }

  /** Every step keeps the invariant. */
  lemma LoopStepInv(s: Loop, e: Event)
    requires Inv(s) && Enabled(s, e)
    ensures Inv(Step(s, e))
  {
    match e {
      case AddChannel(c) => AddChannelInv(s, c);
      case MarkDestroyed(c) =>
        assert forall x :: Users(Step(s, e), x) == Users(s, x);
      case PoolStep(a) => PoolStepInv(s, a);
      case Begin => BeginInv(s);
      case FillSlots => FillInv(s);
      case TakeDone => DrainInv(s, e);
      case ReadDone => DrainInv(s, e);
      case Fire(fires, wake) => FireInv(s, fires, wake);
      case Reap => ReapInv(s);
      case PollReturns(_) => WalkStartsInv(s, e);
      case DrainEnds => WalkStartsInv(s, e);
      case _ =>
    }
  }

  // ----- Runs and what they promise ------------------------------------------

  ghost predicate IsRun(s: Loop, events: seq<Event>)
    decreases |events|
  {
    events == [] || (Enabled(s, events[0]) && IsRun(Step(s, events[0]), events[1..]))
  }

  ghost function After(s: Loop, events: seq<Event>): (t: Loop)
    requires IsRun(s, events)
    decreases |events|
  {
    if events == [] then s else After(Step(s, events[0]), events[1..])
  }

  /** The invariant holds after every run, for any number of workers. */
  lemma {:induction false} LoopRunInv(s: Loop, events: seq<Event>)
    requires Inv(s) && IsRun(s, events)
    ensures Inv(After(s, events))
    decreases |events|
  {
    if events != [] {
      LoopStepInv(s, events[0]);
      LoopRunInv(Step(s, events[0]), events[1..]);
    }
  }

  /** From the start, with any channels and any number of workers, every run keeps it. */
  lemma EveryRun(threads: nat, list: seq<nat>, events: seq<Event>)
    requires NoTwice(list) && IsRun(Start(threads, list), events)
    ensures Inv(After(Start(threads, list), events))
  {
    StartInv(threads, list);
    LoopRunInv(Start(threads, list), events);
  }

  /** A channel is freed only when nothing in the pool refers to it. */
  lemma FreedIsUnused(s: Loop, e: Event, c: nat)
    requires Inv(s) && Enabled(s, e) && c in s.chans && c !in Step(s, e).chans
    ensures Inside(s.pool, c) == 0 && Inside(Step(s, e).pool, c) == 0
  {
    assert Users(s, c) == Inside(s.pool, c);
  }

  lemma {:induction false} BusyCounts(ws: seq<Worker<nat>>, i: nat, c: nat)
    requires i < |ws| && ws[i] == Busy(c)
    ensures InHands(ws, c) >= 1
  {
    if i > 0 { BusyCounts(ws[1..], i - 1, c); }
  }

  lemma {:induction false} TwoBusyCount(ws: seq<Worker<nat>>, i: nat, j: nat, c: nat)
    requires i < j < |ws| && ws[i] == Busy(c) && ws[j] == Busy(c)
    ensures InHands(ws, c) >= 2
  {
    if i == 0 {
      BusyCounts(ws[1..], j - 1, c);
    } else {
      TwoBusyCount(ws[1..], i - 1, j - 1, c);
    }
  }

  /** No two workers run the handler of one channel at the same time. */
  lemma OneHandlerAtATime(s: Loop, i: nat, j: nat, c: nat)
    requires Inv(s) && i < |s.pool.workers| && j < |s.pool.workers|
    requires s.pool.workers[i] == Busy(c) && s.pool.workers[j] == Busy(c)
    ensures i == j
  {
    assert Inside(s.pool, c) <= 1;
    if i < j {
      TwoBusyCount(s.pool.workers, i, j, c);
    } else if j < i {
      TwoBusyCount(s.pool.workers, j, i, c);
    }
  }

  /** The channel whose handler runs, and the channel that the pool hands back, are
      allocated. */
  lemma NoUseAfterFree(s: Loop, c: nat)
    requires Inv(s)
    requires s.pool.reader == Some(c) || exists i :: 0 <= i < |s.pool.workers| && s.pool.workers[i] == Busy(c)
    ensures c in s.chans && s.chans[c].users == 1
  {
    if i :| 0 <= i < |s.pool.workers| && s.pool.workers[i] == Busy(c) {
      BusyCounts(s.pool.workers, i, c);
    }
    assert Users(s, c) == Inside(s.pool, c);
  }

  /** While events are fired, the poll slot that a channel remembers is its own. */
  lemma FiresFromOwnSlot(s: Loop, p: nat)
    requires Inv(s) && s.phase == Firing(Some(p))
    ensures p in s.chans && p in s.offset && s.offset[p] < |s.slot| && s.slot[s.offset[p]] == Some(p)
  {
    ChainFromHead(s.list, s.start.value);
  }

  /** The slots filled are as many as the slots counted, whatever was added to the list
      in between. */
  lemma SlotCountAgrees(s: Loop)
    requires Inv(s) && s.phase.Counted?
    ensures |Step(s, FillSlots).slot| == s.phase.slots
  {
    FillInv(s);
  }
}
