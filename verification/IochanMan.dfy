/** One round of the event loop as the loop thread runs it: filling the poll slots,
    firing events, freeing channels.  Between these parts other threads may take steps;
    module EventLoop has those. */
module IochanMan {
  import opened Wrappers

  datatype Mask = Mask(read: bool, write: bool, except: bool)
  {
    predicate Any() {
      read || write || except
    }
  }

  const NOTHING := Mask(false, false, false)

  datatype Event = Event(timeout: bool, ready: Mask)
  {
    predicate Any() {
      timeout || ready.Any()
    }
  }

  datatype PollFd = PollFd(fd: int, inputMask: Mask)

  class Iochan {
    /** Named "connection_socket". */
    const isConnection: bool
    var fd: int
    var flags: Mask
    var maxIdle: int
    var lastEvent: int
    var threadUsers: int
    var destroyed: bool
    var thisEvent: Event
    var pollOffset: nat

    constructor (isConnection: bool, fd: int, flags: Mask)
      ensures this.isConnection == isConnection && this.fd == fd && this.flags == flags
      ensures threadUsers == 0 && !destroyed && maxIdle == 0 && lastEvent == 0
    {
      this.isConnection, this.fd, this.flags := isConnection, fd, flags;
      maxIdle, lastEvent, threadUsers, destroyed := 0, 0, 0, false;
      thisEvent := Event(false, NOTHING);
      pollOffset := 0;
    }
  }

  /** How many channels of the list have a descriptor. */
  function OpenIn(list: seq<Iochan>): nat
    reads list
  {
    if list == [] then 0
    else
      var n := |list| - 1;
      OpenIn(list[..n]) + if list[n].fd >= 0 then 1 else 0
  }

  /** The channels of the list that have a descriptor. */
  ghost function OpenChannels(list: seq<Iochan>): set<Iochan>
    reads list
  {
    set c | c in list && c.fd >= 0
  }

  lemma {:induction false} OpenAreCounted(list: seq<Iochan>)
    requires NoTwice(list)
    ensures OpenIn(list) == |OpenChannels(list)|
  {
    if list != [] {
      var n := |list| - 1;
      OpenAreCounted(list[..n]);
      assert list == list[..n] + [list[n]];
      assert list[n] !in OpenChannels(list[..n]);
      if list[n].fd >= 0 {
        assert OpenChannels(list) == OpenChannels(list[..n]) + {list[n]};
      } else {
        assert OpenChannels(list) == OpenChannels(list[..n]);
      }
    }
  }

  /** `c` is nearer to the head of the list than `d`. */
  ghost predicate Precedes(list: seq<Iochan>, c: Iochan, d: Iochan)
  {
    exists i, j :: 0 <= i < j < |list| && list[i] == c && list[j] == d
  }

  // ----- Poll slots ----------------------------------------------------------

  /** What a channel asks of the poll: nothing while it is in use. */
  function SlotOf(c: Iochan): PollFd
    reads c`threadUsers, c`fd, c`flags
  {
    if c.threadUsers > 0 || c.fd < 0 || !c.flags.Any() then PollFd(-1, NOTHING)
    else PollFd(c.fd, c.flags)
  }

  /** The seconds a channel allows the poll to wait. */
  function Patience(c: Iochan): int
    reads c`threadUsers, c`maxIdle
  {
    if c.threadUsers <= 0 && c.maxIdle != 0 then c.maxIdle else 300
  }

  /** The channel's slot is filled, and the poll waits no longer than it allows. */
  ghost predicate Filled(c: Iochan, offset: nat, slot: PollFd, tvSec: int)
    reads c
  {
    c.pollOffset == offset && slot == SlotOf(c) && tvSec <= Patience(c)
  }

  /** Some channel of the list allows exactly `tvSec`. */
  ghost predicate Allows(list: seq<Iochan>, tvSec: int)
    reads list`threadUsers, list`maxIdle
  {
    exists j :: 0 <= j < |list| && Patience(list[j]) == tvSec
  }

  lemma SlotMeaning(c: Iochan, slot: PollFd)
    requires slot == SlotOf(c)
    ensures Asks(c, slot) <==>
      c.threadUsers <= 0 && c.fd >= 0 && (c.flags.read || c.flags.write || c.flags.except)
    ensures slot.fd >= 0 ==> slot == PollFd(c.fd, c.flags)
    ensures c.threadUsers <= 0 && c.maxIdle != 0 ==> Patience(c) == c.maxIdle
  {
  }

  lemma AllowsMeaning(list: seq<Iochan>, tvSec: int)
    requires Allows(list, tvSec) && tvSec < 300
    ensures exists i :: 0 <= i < |list| && tvSec == list[i].maxIdle
  {
    var i :| 0 <= i < |list| && Patience(list[i]) == tvSec;
    assert tvSec == list[i].maxIdle;
  }

  lemma AllowsAt(list: seq<Iochan>, j: nat)
    requires j < |list|
    ensures Allows(list, Patience(list[j]))
  {
  }

  // ----- Which channels fire -------------------------------------------------

  /** What a round finds of a channel: nothing to do, a socket of a target with an event
      but no timeout, or any other event. */
  datatype Finding = Quiet | Socket | Other

  /** The positions fired: every `Other`, and the first `Socket`. */
  function Fired(fs: seq<Finding>): seq<nat>
  {
    if fs == [] then []
    else
      var n := |fs| - 1;
      Fired(fs[..n]) + if fs[n].Other? || (fs[n].Socket? && Socket !in fs[..n]) then [n] else []
  }

  /** All events that are not of a target's socket fire, and of those sockets one. */
  lemma {:induction false} FiredMeaning(fs: seq<Finding>)
    ensures forall i: nat :: i in Fired(fs) <==>
      i < |fs| && (fs[i].Other? || (fs[i].Socket? && Socket !in fs[..i]))
    ensures forall i, j :: 0 <= i < j < |Fired(fs)| ==> Fired(fs)[i] < Fired(fs)[j]
  {
    if fs != [] {
      var n := |fs| - 1;
      var past, now := Fired(fs[..n]), Fired(fs);
      FiredMeaning(fs[..n]);
      FiredLast(fs);
      forall i: nat ensures i in now <==>
        i < |fs| && (fs[i].Other? || (fs[i].Socket? && Socket !in fs[..i])) {
        if i < n { assert fs[..n][..i] == fs[..i] && fs[..n][i] == fs[i]; }
      }
      hide Fired;
      forall i, j | 0 <= i < j < |now| ensures now[i] < now[j] {
        if j == |past| { assert past[i] in past; }
      }
    }
  }

  lemma FiredLast(fs: seq<Finding>)
    requires fs != []
    ensures var n := |fs| - 1;
      Fired(fs) == Fired(fs[..n]) + if fs[n].Other? || (fs[n].Socket? && Socket !in fs[..n]) then [n] else []
  {
  }

  lemma NoneFired()
    ensures Fired([]) == []
  {
  }

  lemma FiredNext(fs: seq<Finding>, i: nat)
    requires i < |fs|
    ensures Fired(fs[..i + 1])
      == Fired(fs[..i]) + if fs[i].Other? || (fs[i].Socket? && Socket !in fs[..i]) then [i] else []
    ensures fs[..i + 1] == fs[..i] + [fs[i]]
    ensures forall j :: j in Fired(fs[..i]) ==> j < i
  {
    assert fs[..i + 1][..i] == fs[..i];
    FiredMeaning(fs[..i]);
  }

  /** Nothing that decides whether a channel fires has changed. */
  twostate predicate Unvisited(c: Iochan, fds: seq<PollFd>, answers: seq<Mask>, now: int)
    requires |answers| == |fds|
    reads c
  {
    && c.threadUsers == old(c.threadUsers) && c.lastEvent == old(c.lastEvent)
    && FindingOf(c, fds, answers, now) == old(FindingOf(c, fds, answers, now))
    && EventOf(c, fds, answers, now) == old(EventOf(c, fds, answers, now))
  }

  /** A channel that is handed over has its event and one more user than before, and one
      with an event has it noted, handed over or not. */
  ghost predicate Handled(c: Iochan, chosen: bool, e: Event, eventful: bool, users: int, last: int, now: int)
    reads c
  {
    && (chosen ==> c.thisEvent == e)
    && c.threadUsers == (if chosen then users + 1 else users)
    && c.lastEvent == (if eventful then now else last)
  }

  /** At most one socket of a target fires in a round. */
  lemma OneSocketFires(fs: seq<Finding>, i: nat, j: nat)
    requires i in Fired(fs) && j in Fired(fs) && i < |fs| && j < |fs|
    requires fs[i].Socket? && fs[j].Socket?
    ensures i == j
  {
    if i < j { EarlierIn(fs, i, j); }
    if j < i { EarlierIn(fs, j, i); }
    FiredMeaning(fs);
  }

  lemma EarlierIn(fs: seq<Finding>, i: nat, j: nat)
    requires i < j <= |fs|
    ensures fs[i] in fs[..j]
  {
    assert fs[..j][i] == fs[i];
  }

  /** The event of a channel, from the poll's answer for its slot. */
  function EventOf(c: Iochan, fds: seq<PollFd>, answers: seq<Mask>, now: int): Event
    requires |answers| == |fds|
    reads c
  {
    Event(c.maxIdle != 0 && now - c.lastEvent > c.maxIdle,
          if c.pollOffset < |fds| && fds[c.pollOffset].fd >= 0 && c.fd == fds[c.pollOffset].fd
          then answers[c.pollOffset] else NOTHING)
  }

  function FindingOf(c: Iochan, fds: seq<PollFd>, answers: seq<Mask>, now: int): Finding
    requires |answers| == |fds|
    reads c
  {
    var e := EventOf(c, fds, answers, now);
    if c.destroyed || c.threadUsers > 0 || !e.Any() then Quiet
    else if !e.timeout && c.isConnection then Socket
    else Other
  }

  function Findings(list: seq<Iochan>, fds: seq<PollFd>, answers: seq<Mask>, now: int): (r: seq<Finding>)
    requires |answers| == |fds|
    reads list
    ensures |r| == |list| && forall i :: 0 <= i < |list| ==> r[i] == FindingOf(list[i], fds, answers, now)
  {
    seq(|list|, i requires 0 <= i < |list| reads list => FindingOf(list[i], fds, answers, now))
  }

  // ----- What is handed over, in terms of slots and times -----------------------

  /** Each channel has the slot after its place in the list, as they are filled. */
  ghost predicate OwnSlots(list: seq<Iochan>, fds: seq<PollFd>)
    reads list
  {
    |fds| == 1 + |list| && forall i :: 0 <= i < |list| ==> list[i].pollOffset == i + 1
  }

  /** The channel's slot asks for the channel's descriptor. */
  ghost predicate Asks(c: Iochan, slot: PollFd)
    reads c`fd
  {
    slot.fd >= 0 && slot.fd == c.fd
  }

  ghost predicate Ready(c: Iochan, slot: PollFd, answer: Mask)
    reads c`fd
  {
    Asks(c, slot) && (answer.read || answer.write || answer.except)
  }

  /** The channel has been idle for longer than it allows. */
  ghost predicate Overdue(c: Iochan, now: int)
    reads c`maxIdle, c`lastEvent
  {
    c.maxIdle != 0 && now - c.lastEvent > c.maxIdle
  }

  /** Something happened on a channel that can be handed over. */
  ghost predicate Eventful(c: Iochan, slot: PollFd, answer: Mask, now: int)
    reads c
  {
    !c.destroyed && c.threadUsers <= 0 && (Overdue(c, now) || Ready(c, slot, answer))
  }

  /** A socket of a target with an event but no timeout. */
  ghost predicate Speaks(c: Iochan, slot: PollFd, answer: Mask, now: int)
    reads c
  {
    Eventful(c, slot, answer, now) && c.isConnection && !Overdue(c, now)
  }

  /** Another socket of a target comes first. */
  ghost predicate Waits(list: seq<Iochan>, i: nat, fds: seq<PollFd>, answers: seq<Mask>, now: int)
    requires i < |list| && |answers| == |fds| == 1 + |list|
    reads list
  {
    Speaks(list[i], fds[i + 1], answers[i + 1], now)
    && exists j :: 0 <= j < i && Speaks(list[j], fds[j + 1], answers[j + 1], now)
  }

  /** The event of a channel whose slot has the given answer. */
  ghost function Happened(c: Iochan, slot: PollFd, answer: Mask, now: int): Event
    reads c
  {
    Event(Overdue(c, now), if Asks(c, slot) then answer else NOTHING)
  }

  lemma FindingMeaning(c: Iochan, i: nat, fds: seq<PollFd>, answers: seq<Mask>, now: int)
    requires |answers| == |fds| && i < |fds| && c.pollOffset == i
    ensures var f, e := FindingOf(c, fds, answers, now), EventOf(c, fds, answers, now);
      && (f.Quiet? <==> !Eventful(c, fds[i], answers[i], now))
      && (f.Socket? <==> Speaks(c, fds[i], answers[i], now))
      && e == Happened(c, fds[i], answers[i], now)
  {
  }

  lemma FindingsMeaning(list: seq<Iochan>, fds: seq<PollFd>, answers: seq<Mask>, now: int, i: nat)
    requires |answers| == |fds| && OwnSlots(list, fds) && i < |list|
    ensures var f := Findings(list, fds, answers, now)[i];
      && (f.Quiet? <==> !Eventful(list[i], fds[i + 1], answers[i + 1], now))
      && (f.Socket? <==> Speaks(list[i], fds[i + 1], answers[i + 1], now))
    ensures EventOf(list[i], fds, answers, now) == Happened(list[i], fds[i + 1], answers[i + 1], now)
  {
    FindingMeaning(list[i], i + 1, fds, answers, now);
  }

  /** Whoever has an event is handed over, but for a socket of a target that waits. */
  lemma FiredIsEventful(list: seq<Iochan>, fs: seq<Finding>, fds: seq<PollFd>, answers: seq<Mask>, now: int)
    requires |answers| == |fds| && OwnSlots(list, fds) && fs == Findings(list, fds, answers, now)
    ensures forall i: nat :: i < |list| ==>
      var c, slot, answer := list[i], fds[i + 1], answers[i + 1];
      && (i in Fired(fs) <==> Eventful(c, slot, answer, now) && !Waits(list, i, fds, answers, now))
      && (fs[i].Quiet? <==> !Eventful(c, slot, answer, now))
      && EventOf(c, fds, answers, now) == Happened(c, slot, answer, now)
  {
    hide Fired, Eventful, Speaks, Findings, EventOf, Happened;
    FiredMeaning(fs);
    forall i: nat | i < |list|
      ensures EventOf(list[i], fds, answers, now) == Happened(list[i], fds[i + 1], answers[i + 1], now)
      ensures fs[i].Quiet? <==> !Eventful(list[i], fds[i + 1], answers[i + 1], now)
      ensures i in Fired(fs) <==>
        Eventful(list[i], fds[i + 1], answers[i + 1], now) && !Waits(list, i, fds, answers, now)
    {
      FindingsMeaning(list, fds, answers, now, i);
      if Socket in fs[..i] {
        var j :| 0 <= j < i && fs[..i][j] == Socket;
        FindingsMeaning(list, fds, answers, now, j);
      }
      if j :| 0 <= j < i && Speaks(list[j], fds[j + 1], answers[j + 1], now) {
        FindingsMeaning(list, fds, answers, now, j);
        EarlierIn(fs, j, i);
      }
    }
  }

  lemma ChosenAt(list: seq<Iochan>, at: seq<nat>, added: seq<Iochan>, i: nat)
    requires NoTwice(list) && |added| == |at| && i < |list|
    requires forall k :: 0 <= k < |added| ==> at[k] < |list| && added[k] == list[at[k]]
    ensures list[i] in added <==> i in at
  {
    if list[i] in added {
      var k :| 0 <= k < |added| && added[k] == list[i];
      assert at[k] == i;
    }
    if i in at {
      var k :| 0 <= k < |at| && at[k] == i;
      assert added[k] == list[i];
    }
  }

  lemma ChosenOnce(list: seq<Iochan>, at: seq<nat>, added: seq<Iochan>)
    requires NoTwice(list) && |added| == |at|
    requires forall k :: 0 <= k < |added| ==> at[k] < |list| && added[k] == list[at[k]]
    requires forall i, j :: 0 <= i < j < |at| ==> at[i] < at[j]
    ensures NoTwice(added) && forall i, j :: 0 <= i < j < |added| ==> Precedes(list, added[i], added[j])
    ensures forall i: nat :: i < |list| ==> (list[i] in added <==> i in at)
  {
    forall i: nat | i < |list| ensures list[i] in added <==> i in at {
      ChosenAt(list, at, added, i);
    }
  }

  // ----- Freeing -------------------------------------------------------------

  predicate Doomed(c: Iochan)
    reads c
  {
    c.destroyed && c.threadUsers == 0
  }

  function Kept(list: seq<Iochan>): (r: seq<Iochan>)
    reads list
    ensures forall i :: 0 <= i < |r| ==> r[i] in list && !Doomed(r[i])
    ensures forall i :: 0 <= i < |list| && !Doomed(list[i]) ==> list[i] in r
  {
    if list == [] then []
    else
      var n := |list| - 1;
      assert list == list[..n] + [list[n]];
      Kept(list[..n]) + if Doomed(list[n]) then [] else [list[n]]
  }

  lemma {:induction false} KeptInOrder(list: seq<Iochan>)
    ensures forall i, j :: 0 <= i < j < |Kept(list)| ==> Precedes(list, Kept(list)[i], Kept(list)[j])
  {
    hide Doomed, Precedes;
    if list != [] {
      var n := |list| - 1;
      var past := Kept(list[..n]);
      KeptInOrder(list[..n]);
      forall i, j | 0 <= i < j < |Kept(list)| ensures Precedes(list, Kept(list)[i], Kept(list)[j]) {
        if j < |past| {
          assert Precedes(list[..n], past[i], past[j]);
          PrecedesLonger(list, past[i], past[j]);
        } else {
          LastIsPreceded(list, past[i]);
        }
      }
    }
  }

  lemma PrecedesLonger(list: seq<Iochan>, c: Iochan, d: Iochan)
    requires list != [] && Precedes(list[..|list| - 1], c, d)
    ensures Precedes(list, c, d)
  {
    var past := list[..|list| - 1];
    var i, j :| 0 <= i < j < |past| && past[i] == c && past[j] == d;
    assert list[i] == c && list[j] == d;
  }

  lemma LastIsPreceded(list: seq<Iochan>, c: Iochan)
    requires list != [] && c in list[..|list| - 1]
    ensures Precedes(list, c, list[|list| - 1])
  {
    var i :| 0 <= i < |list| - 1 && list[..|list| - 1][i] == c;
    assert list[i] == c;
  }

  class IochanMan {
    var channelList: seq<Iochan>
    const limitFd: int
    const selFd: int

    constructor (limitFd: int, selFd: int)
      ensures channelList == [] && this.limitFd == limitFd && this.selFd == selFd
    {
      channelList := [];
      this.limitFd, this.selFd := limitFd, selFd;
    }

    /** `iochan_add`: a channel is refused when too many descriptors are open. */
    method Add(chan: Iochan, slack: int) returns (r: int)
      requires NoTwice(channelList) && chan !in channelList
      modifies this
      ensures NoTwice(channelList)
      ensures r == -1 <==>
        && slack >= 0 && limitFd > 0
        && |OpenChannels(old(channelList))| >= limitFd - slack
      ensures r == -1 ==> channelList == old(channelList)
      ensures r != -1 ==> r == 0 && channelList == [chan] + old(channelList)
    {
      var n := OpenCount();
      OpenAreCounted(channelList);
      if slack >= 0 && limitFd > 0 && n >= limitFd - slack {
        return -1;
      }
      channelList := [chan] + channelList;
      return 0;
    }

    method OpenCount() returns (n: nat)
      ensures n == OpenIn(channelList)
    {
      n := 0;
      var i := 0;
      while i < |channelList|
        invariant 0 <= i <= |channelList| && n == OpenIn(channelList[..i])
      {
        assert channelList[..i + 1][..i] == channelList[..i];
        if channelList[i].fd >= 0 {
          n := n + 1;
        }
        i := i + 1;
      }
      assert channelList[..i] == channelList;
    }

    /** Counts and fills the poll slots: the pool's pipe first, then each channel in its
        own slot. */
    method FillSlots() returns (fds: seq<PollFd>, tvSec: int)
      requires NoTwice(channelList)
      modifies channelList`pollOffset
      ensures |fds| == 1 + |channelList| && fds[0] == PollFd(selFd, Mask(true, false, false))
      ensures forall i :: 0 <= i < |channelList| ==>
        Filled(channelList[i], i + 1, fds[i + 1], tvSec)
      ensures tvSec <= 300 && (tvSec == 300 || Allows(channelList, tvSec))
      ensures OwnSlots(channelList, fds)
      ensures forall i :: 0 <= i < |channelList| ==>
        var c := channelList[i];
        && (Asks(c, fds[i + 1]) <==>
              c.threadUsers <= 0 && c.fd >= 0 && (c.flags.read || c.flags.write || c.flags.except))
        && (fds[i + 1].fd >= 0 ==> fds[i + 1] == PollFd(c.fd, c.flags))
        && (c.threadUsers <= 0 && c.maxIdle != 0 ==> tvSec <= c.maxIdle)
      ensures tvSec < 300 ==> exists i :: 0 <= i < |channelList| && tvSec == channelList[i].maxIdle
    {
      hide SlotOf, Patience, Allows, Asks;
      var list := channelList;
      var noFds := |list| + 1;
      fds := [PollFd(selFd, Mask(true, false, false))];
      tvSec := 300;
      var i := 0;
      while i < |list|
        invariant 0 <= i <= |list| && |fds| == i + 1
        invariant fds[0] == PollFd(selFd, Mask(true, false, false))
        invariant forall j :: 0 <= j < i ==> Filled(list[j], j + 1, fds[j + 1], tvSec)
        invariant tvSec <= 300 && (tvSec == 300 || Allows(list, tvSec))
      {
        var slot;
        slot, tvSec := FillSlot(list[i], i + 1, tvSec);
        AllowsAt(list, i);
        fds := fds + [slot];
        forall j | 0 <= j < i ensures Filled(list[j], j + 1, fds[j + 1], tvSec) {
          assert list[j] != list[i];
        }
        i := i + 1;
      }
      assert i + 1 == noFds;
      forall j | 0 <= j < |list| {
        SlotMeaning(list[j], fds[j + 1]);
      }
      if tvSec < 300 { AllowsMeaning(list, tvSec); }
    }

    method FillSlot(p: Iochan, i: nat, tvSec: int) returns (slot: PollFd, tvSec': int)
      requires tvSec <= 300
      modifies p`pollOffset
      ensures p.pollOffset == i && slot == SlotOf(p)
      ensures tvSec' == if Patience(p) < tvSec then Patience(p) else tvSec
    {
      p.pollOffset := i;
      slot, tvSec' := PollFd(-1, NOTHING), tvSec;
      if p.threadUsers <= 0 {
        if p.maxIdle != 0 && p.maxIdle < tvSec {
          tvSec' := p.maxIdle;
        }
        if p.fd >= 0 {
          slot := slot.(inputMask := p.flags);
          if slot.inputMask.Any() {
            slot := slot.(fd := p.fd);
          }
        }
      }
    }

    /** Hands the channels with events to the workers, at most one socket of a target
        among them. */
    method FireAll(fds: seq<PollFd>, answers: seq<Mask>, now: int) returns (added: seq<Iochan>)
      requires NoTwice(channelList) && |answers| == |fds|
      modifies channelList`thisEvent, channelList`lastEvent, channelList`threadUsers
      ensures NoTwice(added)
        && forall i, j :: 0 <= i < j < |added| ==> Precedes(channelList, added[i], added[j])
      ensures var fs := old(Findings(channelList, fds, answers, now));
        && |added| == |Fired(fs)|
        && (forall k :: 0 <= k < |added| ==> Fired(fs)[k] < |channelList| && added[k] == channelList[Fired(fs)[k]])
        && (forall j: nat :: j < |channelList| ==>
              Handled(channelList[j], j in Fired(fs), old(EventOf(channelList[j], fds, answers, now)),
                      !fs[j].Quiet?, old(channelList[j].threadUsers), old(channelList[j].lastEvent), now))
      ensures old(OwnSlots(channelList, fds)) ==> forall i: nat :: i < |channelList| ==>
        var c, slot, answer := channelList[i], fds[i + 1], answers[i + 1];
        && (c in added <==>
              old(Eventful(c, slot, answer, now)) && !old(Waits(channelList, i, fds, answers, now)))
        && Handled(c, c in added, old(Happened(c, slot, answer, now)), old(Eventful(c, slot, answer, now)),
                   old(c.threadUsers), old(c.lastEvent), now)
    {
      hide Fired, EventOf, FindingOf, Findings, Eventful, Waits, OwnSlots, Handled, Happened;
      ghost var list, fs := channelList, Findings(channelList, fds, answers, now);
      FiredMeaning(fs);
      if OwnSlots(list, fds) { FiredIsEventful(list, fs, fds, answers, now); }
      added := FireEach(fds, answers, now);
      ChosenOnce(list, Fired(fs), added);
    }

    /** The loop that does so. */
    method FireEach(fds: seq<PollFd>, answers: seq<Mask>, now: int) returns (added: seq<Iochan>)
      requires NoTwice(channelList) && |answers| == |fds|
      modifies channelList`thisEvent, channelList`lastEvent, channelList`threadUsers
      ensures var fs := old(Findings(channelList, fds, answers, now));
        && |added| == |Fired(fs)|
        && (forall k :: 0 <= k < |added| ==> Fired(fs)[k] < |channelList| && added[k] == channelList[Fired(fs)[k]])
        && (forall j: nat :: j < |channelList| ==>
              Handled(channelList[j], j in Fired(fs), old(EventOf(channelList[j], fds, answers, now)),
                      !fs[j].Quiet?, old(channelList[j].threadUsers), old(channelList[j].lastEvent), now))
    {
      hide Fired, EventOf, FindingOf, Findings;
      var list := channelList;
      ghost var fs := Findings(list, fds, answers, now);
      added := [];
      var connectionFired := 0;
      var i := 0;
      NoneFired();
      assert fs[..0] == [];
      while i < |list|
        invariant 0 <= i <= |list| && connectionFired >= 0
        invariant connectionFired > 0 <==> Socket in fs[..i]
        invariant |added| == |Fired(fs[..i])|
        invariant forall k :: 0 <= k < |added| ==>
          Fired(fs[..i])[k] < i && added[k] == list[Fired(fs[..i])[k]]
        invariant forall j :: i <= j < |list| ==> Unvisited(list[j], fds, answers, now)
        invariant forall j: nat :: j < i ==>
          Handled(list[j], j in Fired(fs[..i]), old(EventOf(list[j], fds, answers, now)),
                  !fs[j].Quiet?, old(list[j].threadUsers), old(list[j].lastEvent), now)
      {
        FiredNext(fs, i);
        assert Unvisited(list[i], fds, answers, now) && fs[i] == FindingOf(list[i], fds, answers, now);
        var fires;
        fires, connectionFired := FireOne(list[i], fds, answers, now, connectionFired);
        if fires {
          added := added + [list[i]];
        }
        i := i + 1;
      }
      assert fs[..i] == fs;
    }

    /** The body of the loop that fires events. */
    method FireOne(p: Iochan, fds: seq<PollFd>, answers: seq<Mask>, now: int, connectionFired: int)
        returns (fires: bool, connectionFired': int)
      requires |answers| == |fds| && connectionFired >= 0
      modifies p`thisEvent, p`lastEvent, p`threadUsers
      ensures var f := old(FindingOf(p, fds, answers, now));
        && (fires <==> f.Other? || (f.Socket? && connectionFired == 0))
        && connectionFired' == connectionFired + (if f.Socket? then 1 else 0)
      ensures p.threadUsers == old(p.threadUsers) + if fires then 1 else 0
      ensures p.lastEvent ==
        if old(FindingOf(p, fds, answers, now)).Quiet? then old(p.lastEvent) else now
      ensures fires ==> old(p.threadUsers) <= 0 && p.thisEvent == old(EventOf(p, fds, answers, now))
    {
      fires, connectionFired' := false, connectionFired;
      if p.destroyed || p.threadUsers > 0 {
        return;
      }
      p.thisEvent := EventOf(p, fds, answers, now);
      if p.thisEvent.timeout || p.thisEvent.ready.Any() {
        p.lastEvent := now;
        if !p.thisEvent.timeout && p.isConnection {
          fires := connectionFired == 0;
          connectionFired' := connectionFired + 1;
        } else {
          fires := true;
        }
        if fires {
          p.threadUsers := p.threadUsers + 1;
        }
      }
    }

    /** Frees the channels that are destroyed and out of use; the others stay, in order. */
    method Reap() returns (freed: set<Iochan>)
      requires NoTwice(channelList)
      modifies this
      ensures channelList == Kept(old(channelList))
      ensures freed == set c | c in old(channelList) && c.destroyed && c.threadUsers == 0
      ensures forall c :: c in channelList <==> c in old(channelList) && c !in freed
      ensures forall i, j :: 0 <= i < j < |channelList| ==>
        Precedes(old(channelList), channelList[i], channelList[j])
    {
      hide Precedes;
      freed := {};
      var rest: seq<Iochan> := [];
      var i := 0;
      while i < |channelList|
        invariant 0 <= i <= |channelList| && channelList == old(channelList)
        invariant rest == Kept(channelList[..i])
        invariant freed == set c | c in channelList[..i] && Doomed(c)
      {
        var p := channelList[i];
        assert channelList[..i + 1][..i] == channelList[..i];
        assert channelList[..i + 1] == channelList[..i] + [p];
        if p.destroyed && p.threadUsers == 0 {
          freed := freed + {p};
        } else {
          rest := rest + [p];
        }
        i := i + 1;
      }
      assert channelList[..i] == channelList;
      KeptInOrder(channelList);
      channelList := rest;
    }
  }
}
