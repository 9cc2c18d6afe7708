/** Whole rounds of the event loop: every channel is visited, every destroyed one that is
    out of use is freed, no other is, and the loop never gets stuck. */
module EventRounds {
  import opened Wrappers
  import opened SelThread
  import opened EventLoop

  // ----- The poll ------------------------------------------------------------

  /** The loop takes results exactly if the poll finds the pipe readable. */
  lemma PollDrains(s: Loop, readable: bool)
    requires EventLoop.Enabled(s, PollReturns(readable))
    ensures EventLoop.Step(s, PollReturns(readable)).phase
      == if s.pool.pipe > 0 then Draining else Firing(s.start)
  {
  }

  /** It ends exactly where a round ends without channels. */
  lemma EndsWithoutChannels(s: Loop, e: Event)
    requires EventLoop.Enabled(s, e) && !s.phase.Finished?
    ensures EventLoop.Step(s, e).phase.Finished? <==> (e.ReapEnds? || e.PollInterrupted?) && s.list == []
  {
  }

  // ----- The walk that fires events --------------------------------------------

  /** A channel visited goes to the pool exactly if it has an event to fire and is neither
      destroyed nor in use, and then it has a user. */
  lemma FireAdds(s: Loop, fires: bool, wake: nat)
    requires EventLoop.Inv(s) && EventLoop.Enabled(s, Fire(fires, wake))
    ensures var t, p := EventLoop.Step(s, Fire(fires, wake)), s.phase.p.value;
      var live := !s.chans[p].destroyed && s.chans[p].users == 0;
      && t.pool.added == s.pool.added + (if fires && live then [p] else [])
      && t.chans[p].users == (if fires && live then 1 else s.chans[p].users)
  {
    hide SelThread.Inv, ChainFrom, WalkSafe, SlotsMatch;
    assert Users(s, s.phase.p.value) == Inside(s.pool, s.phase.p.value);
  }

  /** The steps that can come between the start and the end of that walk. */
  predicate InWalk(e: Event)
  {
    e.Fire? || e.AddChannel? || e.MarkDestroyed? || e.PoolStep?
  }

  function Visits(events: seq<Event>): (n: nat)
  {
    if events == [] then 0 else (if events[0].Fire? then 1 else 0) + Visits(events[1..])
  }

  lemma {:induction false} ChainOfNext(list: seq<nat>, p: nat)
    requires NoTwice(list) && p in list
    ensures var chain := ChainFrom(list, Some(p));
      && |chain| > 0 && chain[0] == p
      && ChainFrom(list, Next(list, p)) == chain[1..]
  {
    if list[0] == p {
      if |list| > 1 { assert list[1..][0] == list[1] && list[0] != list[1]; }
    } else {
      ChainOfNext(list[1..], p);
      var chain := ChainFrom(list[1..], Some(p));
      ChainFromHead(list[1..], p);
      if |chain| > 1 { assert chain[1] in chain && chain[1] in list[1..]; }
    }
  }

  lemma WalkStep(s: Loop, e: Event)
    requires EventLoop.Inv(s) && s.phase.Firing? && EventLoop.Enabled(s, e) && InWalk(e)
    ensures var t := EventLoop.Step(s, e);
      var chain := ChainFrom(s.list, s.phase.p);
      && t.phase.Firing?
      && (e.Fire? ==> chain != [] && s.phase.p == Some(chain[0]) && ChainFrom(t.list, t.phase.p) == chain[1..])
      && (!e.Fire? ==> t.phase == s.phase && ChainFrom(t.list, t.phase.p) == chain)
  {
    if s.phase.p.Some? {
      ChainFromHead(s.list, s.start.value);
      ChainOfNext(s.list, s.phase.p.value);
    }
    if e.AddChannel? { PrependKeepsChain(s.list, s.phase.p, e.c); }
  }

  /** However other threads step in between, the walk visits the channels it started with
      one after the other. */
  lemma {:induction false} WalkVisits(s: Loop, events: seq<Event>)
    requires EventLoop.Inv(s) && s.phase.Firing?
    requires EventLoop.IsRun(s, events) && forall e :: e in events ==> InWalk(e)
    ensures var t, chain, n := EventLoop.After(s, events), ChainFrom(s.list, s.phase.p), Visits(events);
      && n <= |chain| && t.phase.Firing? && ChainFrom(t.list, t.phase.p) == chain[n..]
    decreases |events|
  {
    hide EventLoop.Inv, EventLoop.Enabled, EventLoop.Step, ChainFrom;
    if events != [] {
      LoopStepInv(s, events[0]);
      WalkStep(s, events[0]);
      WalkVisits(EventLoop.Step(s, events[0]), events[1..]);
    }
  }

  /** A walk that has ended has visited every channel that was there when it began. */
  lemma WalkVisitsAll(s: Loop, events: seq<Event>)
    requires EventLoop.Inv(s) && s.phase == Firing(s.start)
    requires EventLoop.IsRun(s, events) && forall e :: e in events ==> InWalk(e)
    requires EventLoop.Enabled(EventLoop.After(s, events), FireEnds)
    ensures Visits(events) == |ChainFrom(s.list, s.start)|
  {
    WalkVisits(s, events);
  }

  // ----- Channels that are destroyed ---------------------------------------------

  lemma DestroyedStep(s: Loop, e: Event, c: nat)
    requires EventLoop.Inv(s) && EventLoop.Enabled(s, e) && e != AddChannel(c)
    requires c in s.chans ==> s.chans[c].destroyed
    ensures var t := EventLoop.Step(s, e);
      c in t.chans ==> c in s.chans && t.chans[c].destroyed && t.chans[c].users <= s.chans[c].users
  {
    hide UsersCounted, SlotsMatch, WalkSafe, ReaderIsLoop, SelThread.Inv, ChainFrom, SelThread.Step;
  }

  /** Once marked, a channel is not handed to a worker again. */
  lemma {:induction false} DestroyedIsNotFired(s: Loop, events: seq<Event>, c: nat)
    requires EventLoop.Inv(s) && EventLoop.IsRun(s, events) && AddChannel(c) !in events
    requires c in s.chans ==> s.chans[c].destroyed
    ensures var t := EventLoop.After(s, events);
      c in t.chans ==> c in s.chans && t.chans[c].destroyed && t.chans[c].users <= s.chans[c].users
    decreases |events|
  {
    hide EventLoop.Inv, EventLoop.Enabled, EventLoop.Step;
    if events != [] {
      LoopStepInv(s, events[0]);
      DestroyedStep(s, events[0], c);
      DestroyedIsNotFired(EventLoop.Step(s, events[0]), events[1..], c);
    }
  }

  lemma MarkedIsNotFired(s: Loop, c: nat, events: seq<Event>)
    requires EventLoop.Inv(s) && EventLoop.Enabled(s, MarkDestroyed(c))
    requires EventLoop.IsRun(EventLoop.Step(s, MarkDestroyed(c)), events) && AddChannel(c) !in events
    ensures var t := EventLoop.After(EventLoop.Step(s, MarkDestroyed(c)), events);
      c in t.chans ==> t.chans[c].destroyed && t.chans[c].users <= s.chans[c].users
  {
    LoopStepInv(s, MarkDestroyed(c));
    DestroyedIsNotFired(EventLoop.Step(s, MarkDestroyed(c)), events, c);
  }

  /** Only channels that were marked are destroyed. */
  lemma {:induction false} DestroyedWasMarked(s: Loop, events: seq<Event>, c: nat)
    requires EventLoop.IsRun(s, events)
    ensures var t := EventLoop.After(s, events);
      c in t.chans && t.chans[c].destroyed ==>
        MarkDestroyed(c) in events || (c in s.chans && s.chans[c].destroyed)
    decreases |events|
  {
    if events != [] {
      var t := EventLoop.Step(s, events[0]);
      DestroyedWasMarked(t, events[1..], c);
      assert c in t.chans && t.chans[c].destroyed ==>
        events[0] == MarkDestroyed(c) || (c in s.chans && s.chans[c].destroyed);
      assert forall e :: e in events[1..] ==> e in events;
    }
  }

  /** In every run from the start a channel that is freed has been marked. */
  lemma FreedWasMarked(threads: nat, list: seq<nat>, events: seq<Event>, e: Event, c: nat)
    requires EventLoop.IsRun(Start(threads, list), events)
    requires var s := EventLoop.After(Start(threads, list), events);
      EventLoop.Enabled(s, e) && c in s.chans && c !in EventLoop.Step(s, e).chans
    ensures MarkDestroyed(c) in events
  {
    DestroyedWasMarked(Start(threads, list), events, c);
  }

  // ----- The walk that frees channels ----------------------------------------------

  /** The list without the channels that are no longer there. */
  ghost function Left(list: seq<nat>, chans: map<nat, Chan>): (r: seq<nat>)
  {
    if list == [] then [] else (if list[0] in chans then [list[0]] else []) + Left(list[1..], chans)
  }

  ghost predicate Doomed(s: Loop, c: nat)
  {
    c in s.chans && s.chans[c].destroyed && s.chans[c].users == 0
  }

  predicate InReap(e: Event)
  {
    e.Reap? || e.MarkDestroyed? || e.PoolStep?
  }

  ghost predicate Reaps(s: Loop)
  {
    s.phase.Reaping? && s.phase.i <= |s.list|
  }

  lemma {:induction false} LeftAll(list: seq<nat>, chans: map<nat, Chan>)
    requires forall c :: c in list ==> c in chans
    ensures Left(list, chans) == list
  {
    if list != [] {
      LeftAll(list[1..], chans);
      assert list == [list[0]] + list[1..];
    }
  }

  lemma {:induction false} LeftWithout(list: seq<nat>, i: nat, chans: map<nat, Chan>)
    requires i < |list| && list[i] !in chans
    ensures Left(list[..i] + list[i + 1..], chans) == Left(list, chans)
  {
    var short := list[..i] + list[i + 1..];
    if i == 0 {
      assert short == list[1..];
    } else {
      LeftWithout(list[1..], i - 1, chans);
      assert short[1..] == list[1..][..i - 1] + list[1..][i..];
    }
  }

  lemma ReapStep(s: Loop, e: Event)
    requires EventLoop.Inv(s) && Reaps(s) && EventLoop.Enabled(s, e) && InReap(e)
    ensures var t := EventLoop.Step(s, e);
      && Reaps(t)
      && (forall c :: c in t.chans ==> c in s.chans && t.chans[c].users == s.chans[c].users)
      && (forall c :: c in s.chans && c !in t.chans ==> Doomed(s, c))
      && (forall c :: c in t.chans && t.chans[c].destroyed ==> s.chans[c].destroyed || e == MarkDestroyed(c))
      && (forall c :: Doomed(s, c) && c in s.list[s.phase.i..] ==>
            c !in t.chans || (Doomed(t, c) && c in t.list[t.phase.i..]))
      && (t.list == s.list
          || (s.phase.i < |s.list| && s.list[s.phase.i] !in t.chans
              && t.list == s.list[..s.phase.i] + s.list[s.phase.i + 1..]))
  {
    hide UsersCounted, SlotsMatch, WalkSafe, ReaderIsLoop, SelThread.Inv, ChainFrom, SelThread.Step;
    var i, t := s.phase.i, EventLoop.Step(s, e);
    if i < |s.list| { assert s.list[i..] == [s.list[i]] + s.list[i + 1..]; }
    if e.Reap? && Doomed(s, s.list[i]) {
      assert t.list[i..] == s.list[i + 1..];
    }
  }

  /** However other threads step in between, the walk leaves behind it no channel that
      was destroyed and out of use when it came there. */
  lemma {:induction false} ReapRun(s: Loop, events: seq<Event>)
    requires EventLoop.Inv(s) && Reaps(s)
    requires EventLoop.IsRun(s, events) && forall e :: e in events ==> InReap(e)
    ensures var t := EventLoop.After(s, events);
      && Reaps(t) && t.list == Left(s.list, t.chans)
      && (forall c :: c in t.chans ==> c in s.chans && t.chans[c].users == s.chans[c].users)
      && (forall c :: c in s.chans && c !in t.chans ==>
            s.chans[c].users == 0 && (s.chans[c].destroyed || MarkDestroyed(c) in events))
      && (forall c :: Doomed(s, c) && c in s.list[s.phase.i..] ==> c !in t.chans || c in t.list[t.phase.i..])
    decreases |events|, 1
  {
    if events == [] {
      LeftAll(s.list, s.chans);
    } else {
      ReapRunStep(s, events);
    }
  }

  lemma {:induction false} ReapRunStep(s: Loop, events: seq<Event>)
    requires EventLoop.Inv(s) && Reaps(s) && events != []
    requires EventLoop.IsRun(s, events) && forall e :: e in events ==> InReap(e)
    ensures var t := EventLoop.After(s, events);
      && Reaps(t) && t.list == Left(s.list, t.chans)
      && (forall c :: c in t.chans ==> c in s.chans && t.chans[c].users == s.chans[c].users)
      && (forall c :: c in s.chans && c !in t.chans ==>
            s.chans[c].users == 0 && (s.chans[c].destroyed || MarkDestroyed(c) in events))
      && (forall c :: Doomed(s, c) && c in s.list[s.phase.i..] ==> c !in t.chans || c in t.list[t.phase.i..])
    decreases |events|, 0
  {
    hide EventLoop.Inv, EventLoop.Enabled, EventLoop.Step, Left;
    var m := EventLoop.Step(s, events[0]);
    LoopStepInv(s, events[0]);
    ReapStep(s, events[0]);
    ReapRun(m, events[1..]);
    var t := EventLoop.After(s, events);
    if m.list != s.list { LeftWithout(s.list, s.phase.i, t.chans); }
    assert forall e :: e in events[1..] ==> e in events;
  }

  /** When that walk ends, every channel is gone that was destroyed and out of use when the
      firing ended; whatever is gone was out of use then, and destroyed by now; and the
      others are still there, in their order. */
  lemma ReapFreesAll(s: Loop, events: seq<Event>)
    requires EventLoop.Inv(s) && EventLoop.Enabled(s, FireEnds)
    requires EventLoop.IsRun(EventLoop.Step(s, FireEnds), events) && forall e :: e in events ==> InReap(e)
    requires EventLoop.Enabled(EventLoop.After(EventLoop.Step(s, FireEnds), events), ReapEnds)
    ensures var t := EventLoop.After(EventLoop.Step(s, FireEnds), events);
      && (forall c :: c in s.chans && s.chans[c].destroyed && s.chans[c].users == 0 ==> c !in t.chans)
      && (forall c :: c in s.chans && c !in t.chans ==>
            s.chans[c].users == 0 && (s.chans[c].destroyed || MarkDestroyed(c) in events))
      && t.list == Left(s.list, t.chans)
  {
    var m := EventLoop.Step(s, FireEnds);
    LoopStepInv(s, FireEnds);
    ReapRun(m, events);
    assert m.list[0..] == s.list;
  }

  // ----- Progress ------------------------------------------------------------

  predicate IsLoopStep(e: Event)
  {
    !e.AddChannel? && !e.MarkDestroyed? && !e.PoolStep?
  }

  /** The loop thread can always take a step, unless it waits for the byte of a worker,
      which then can write it. */
  lemma LoopProgress(s: Loop) returns (e: Event)
    requires EventLoop.Inv(s) && !s.phase.Finished?
    ensures EventLoop.Enabled(s, e)
    ensures IsLoopStep(e) || (e.PoolStep? && e.a.Post? && s.pool.reader.Some?)
  {
    match s.phase {
      case Top => e := Begin;
      case Counted(_) => e := FillSlots;
      case Filled => e := PollReturns(s.pool.pipe > 0);
      case Draining =>
        if s.pool.reader.Some? {
          var w := ReaderIsReleased(s.pool);
          e := if s.pool.pipe > 0 then ReadDone else PoolStep(Post(w));
        } else {
          e := if s.pool.output != [] then TakeDone else DrainEnds;
        }
      case Firing(p) =>
        if p.Some? {
          e := FireStep(s);
        } else {
          e := FireEnds;
        }
      case Reaping(i) =>
        e := if i < |s.list| then Reap else ReapEnds;
        if i < |s.list| { assert s.list[i] in s.list; }
    }
  }

  lemma FireStep(s: Loop) returns (e: Event)
    requires EventLoop.Inv(s) && s.phase.Firing? && s.phase.p.Some?
    ensures e.Fire? && EventLoop.Enabled(s, e)
  {
    ChainFromHead(s.list, s.start.value);
    var wake := 0;
    if SomeAsleep(s.pool.workers) {
      wake :| 0 <= wake < |s.pool.workers| && s.pool.workers[wake].Asleep?;
    }
    e := Fire(false, wake);
  }
}
