/** Settings with precedence: each slot holds the values that win so far, and a new
    setting removes, joins or yields to what is there. */
module Settings {
  import opened Wrappers

  /** Null targets are `None`; a target is not the empty string. */
  datatype Setting = Setting(name: string, target: Option<string>, value: string, precedence: int)

  predicate Proper(s: Setting)
  {
    s.target.Some? ==> s.target.value != ""
  }

  const WILDCARD_NO := 0
  const WILDCARD_DB := 1
  const WILDCARD_YES := 2

  /** `zurl_wildcard`. */
  function Wildcard(target: Option<string>): (r: int)
    requires target.Some? ==> target.value != ""
    ensures WILDCARD_NO <= r <= WILDCARD_YES
  {
    if target.None? then WILDCARD_NO
    else if target.value[0] == '*' then WILDCARD_YES
    else if target.value[|target.value| - 1] == '*' then WILDCARD_DB
    else WILDCARD_NO
  }

  // ----- The order of settings -----------------------------------------------

  /** `a` beats `b`: higher precedence, or the same and a more specific target. */
  predicate Beats(a: Setting, b: Setting)
    requires Proper(a) && Proper(b)
  {
    a.precedence > b.precedence
    || (a.precedence == b.precedence && Wildcard(a.target) < Wildcard(b.target))
  }

  ghost predicate AllProper(xs: seq<Setting>)
  {
    forall i :: 0 <= i < |xs| ==> Proper(xs[i])
  }

  /** No setting of the same name in `xs` beats `s`. */
  ghost predicate Unbeaten(s: Setting, xs: seq<Setting>)
    requires Proper(s) && AllProper(xs)
  {
    forall i :: 0 <= i < |xs| ==> xs[i].name == s.name ==> !Beats(xs[i], s)
  }

  // ----- What an update does -------------------------------------------------

  /** The walk over a slot: the list it leaves and whether it reached the end. */
  function Walk(list: seq<Setting>, s: Setting): (r: (seq<Setting>, bool))
    requires Proper(s) && AllProper(list)
    ensures AllProper(r.0)
  {
    if list == [] then ([], true)
    else if list[0].name == s.name && Beats(s, list[0]) then Walk(list[1..], s)
    else if list[0].name == s.name && Beats(list[0], s) then (list, false)
    else
      var (rest, ended) := Walk(list[1..], s);
      ([list[0]] + rest, ended)
  }

  /** `update_settings` on one slot. */
  function Update(list: seq<Setting>, s: Setting): (r: seq<Setting>)
    requires Proper(s) && AllProper(list)
    ensures AllProper(r)
  {
    var (rest, ended) := Walk(list, s);
    if ended then [s] + rest else rest
  }

  /** The slot after a sequence of updates from an empty slot. */
  function Apply(history: seq<Setting>): (r: seq<Setting>)
    requires AllProper(history)
    ensures AllProper(r)
  {
    if history == [] then []
    else
      var n := |history| - 1;
      assert forall i :: 0 <= i < n ==> history[..n][i] == history[i];
      Update(Apply(history[..n]), history[n])
  }

  // ----- What the result means -----------------------------------------------

  /** The settings of `xs` that no setting of the same name in `all` beats, newest
      first. */
  ghost function Winners(xs: seq<Setting>, all: seq<Setting>): (r: seq<Setting>)
    requires AllProper(xs) && AllProper(all)
    ensures AllProper(r)
  {
    if xs == [] then []
    else
      var n := |xs| - 1;
      assert forall i :: 0 <= i < n ==> xs[..n][i] == xs[i];
      (if Unbeaten(xs[n], all) then [xs[n]] else []) + Winners(xs[..n], all)
  }

  /** Of one name, all settings in a slot are equally good. */
  ghost predicate Level(list: seq<Setting>)
    requires AllProper(list)
  {
    forall i, j :: 0 <= i < |list| && 0 <= j < |list| && list[i].name == list[j].name ==>
      !Beats(list[i], list[j])
  }

  /** The settings of a list that `s` does not beat. */
  ghost function NotBeatenBy(list: seq<Setting>, s: Setting): (r: seq<Setting>)
    requires Proper(s) && AllProper(list)
    ensures AllProper(r)
  {
    if list == [] then []
    else
      (if list[0].name == s.name && Beats(s, list[0]) then [] else [list[0]]) + NotBeatenBy(list[1..], s)
  }

  /** In a level slot the walk stops only where nothing has been removed: either a
      setting that beats `s` stops it and the list is as it was, or it reaches the end
      and has removed exactly what `s` beats. */
  lemma {:induction false} WalkMeaning(list: seq<Setting>, s: Setting)
    requires Proper(s) && AllProper(list) && Level(list)
    ensures var (rest, ended) := Walk(list, s);
      && (ended <==> Unbeaten(s, list))
      && (ended ==> rest == NotBeatenBy(list, s))
      && (!ended ==> rest == list)
  {
    if list != [] {
      var tail := list[1..];
      assert forall i :: 0 <= i < |tail| ==> tail[i] == list[i + 1];
      WalkMeaning(tail, s);
      assert list == [list[0]] + tail;
      if list[0].name == s.name && Beats(s, list[0]) {
        forall i | 0 <= i < |list| ensures list[i].name == s.name ==> !Beats(list[i], s) {
          assert list[0].name == list[i].name ==> !Beats(list[i], list[0]);
        }
        assert Unbeaten(s, list);
        assert Unbeaten(s, tail);
      } else if list[0].name == s.name && Beats(list[0], s) {
        assert !Unbeaten(s, list);
      } else {
        if Unbeaten(s, tail) {
          forall i | 0 <= i < |list| ensures list[i].name == s.name ==> !Beats(list[i], s) {
            if i > 0 { assert list[i] == tail[i - 1]; }
          }
        } else {
          var i :| 0 <= i < |tail| && tail[i].name == s.name && Beats(tail[i], s);
          assert list[i + 1] == tail[i];
        }
      }
    }
  }

  // ----- Batch meaning -------------------------------------------------------

  lemma {:induction false} WinnersMember(xs: seq<Setting>, all: seq<Setting>)
    requires AllProper(xs) && AllProper(all)
    ensures forall s :: s in Winners(xs, all) <==> s in xs && Unbeaten(s, all)
  {
    if xs != [] {
      var n := |xs| - 1;
      WinnersMember(xs[..n], all);
      assert xs == xs[..n] + [xs[n]];
    }
  }

  lemma WinnersLevel(all: seq<Setting>)
    requires AllProper(all)
    ensures Level(Winners(all, all))
  {
    WinnersMember(all, all);
    var w := Winners(all, all);
    forall i, j | 0 <= i < |w| && 0 <= j < |w| && w[i].name == w[j].name ensures !Beats(w[i], w[j]) {
      assert w[i] in w && w[j] in w;
    }
  }

  lemma UnbeatenSnoc(x: Setting, all: seq<Setting>, s: Setting)
    requires Proper(x) && Proper(s) && AllProper(all)
    ensures AllProper(all + [s])
    ensures Unbeaten(x, all + [s]) <==> Unbeaten(x, all) && !(s.name == x.name && Beats(s, x))
  {
    var more := all + [s];
    assert more[|all|] == s;
    assert forall i :: 0 <= i < |all| ==> more[i] == all[i];
  }

  lemma WinnersSnoc(xs: seq<Setting>, all: seq<Setting>)
    requires AllProper(xs) && AllProper(all) && xs != []
    ensures AllProper(xs[..|xs| - 1])
    ensures Winners(xs, all)
      == (if Unbeaten(xs[|xs| - 1], all) then [xs[|xs| - 1]] else []) + Winners(xs[..|xs| - 1], all)
  {
    assert forall i :: 0 <= i < |xs| - 1 ==> xs[..|xs| - 1][i] == xs[i];
  }

  lemma NotBeatenByCons(x: Setting, w: seq<Setting>, s: Setting)
    requires AllProper(w) && Proper(x) && Proper(s)
    ensures AllProper([x] + w)
    ensures NotBeatenBy([x] + w, s)
      == (if x.name == s.name && Beats(s, x) then [] else [x]) + NotBeatenBy(w, s)
  {
    assert ([x] + w)[1..] == w;
  }

  /** A further setting takes from the winners those it beats. */
  lemma {:induction false} WinnersShrink(xs: seq<Setting>, all: seq<Setting>, s: Setting)
    requires AllProper(xs) && AllProper(all) && Proper(s)
    ensures AllProper(all + [s])
    ensures Winners(xs, all + [s]) == NotBeatenBy(Winners(xs, all), s)
  {
    UnbeatenSnoc(s, all, s);
    if xs != [] {
      var n := |xs| - 1;
      WinnersShrink(xs[..n], all, s);
      UnbeatenSnoc(xs[n], all, s);
      var w, v := Winners(xs[..n], all), Winners(xs[..n], all + [s]);
      NotBeatenByCons(xs[n], w, s);
      WinnersSnoc(xs, all);
      WinnersSnoc(xs, all + [s]);
      assert [] + w == w && [] + v == v;
    }
  }

  /** Some winner is at least as good as any setting of the list. */
  lemma {:induction false} WinnerExists(xs: seq<Setting>, i: nat) returns (w: Setting)
    requires AllProper(xs) && i < |xs|
    ensures w in xs && Unbeaten(w, xs) && w.name == xs[i].name && !Beats(xs[i], w)
    decreases |xs|
  {
    var n := |xs| - 1;
    var rest := xs[..n];
    assert xs == rest + [xs[n]];
    assert forall k :: 0 <= k < n ==> rest[k] == xs[k];
    if exists k :: 0 <= k < n && rest[k].name == xs[n].name {
      var k :| 0 <= k < n && rest[k].name == xs[n].name;
      var v := WinnerExists(rest, if xs[i].name == xs[n].name then (if i < n then i else k) else i);
      UnbeatenSnoc(v, rest, xs[n]);
      UnbeatenSnoc(xs[n], rest, xs[n]);
      if xs[n].name == v.name && Beats(xs[n], v) {
        w := xs[n];
      } else {
        w := v;
      }
    } else {
      UnbeatenSnoc(xs[n], rest, xs[n]);
      if i == n {
        w := xs[n];
      } else {
        w := WinnerExists(rest, i);
        UnbeatenSnoc(w, rest, xs[n]);
      }
    }
  }

  /** Nothing among the winners beats `s` exactly when nothing at all does. */
  lemma UnbeatenByWinners(all: seq<Setting>, s: Setting)
    requires AllProper(all) && Proper(s)
    ensures Unbeaten(s, Winners(all, all)) <==> Unbeaten(s, all)
  {
    WinnersMember(all, all);
    var ws := Winners(all, all);
    if Unbeaten(s, ws) {
      forall i | 0 <= i < |all| ensures all[i].name == s.name ==> !Beats(all[i], s) {
        var w := WinnerExists(all, i);
        assert w in ws;
        var j :| 0 <= j < |ws| && ws[j] == w;
      }
    }
    if Unbeaten(s, all) {
      forall j | 0 <= j < |ws| ensures ws[j].name == s.name ==> !Beats(ws[j], s) {
        assert ws[j] in ws;
        var i :| 0 <= i < |all| && all[i] == ws[j];
      }
    }
  }

  /** After any sequence of settings the slot holds, newest first, exactly the settings
      that no setting of the same name beats. */
  lemma {:induction false} ApplyIsWinners(history: seq<Setting>)
    requires AllProper(history)
    ensures Apply(history) == Winners(history, history)
  {
    if history != [] {
      var n := |history| - 1;
      var past, s := history[..n], history[n];
      assert forall i :: 0 <= i < n ==> past[i] == history[i];
      assert history == past + [s];
      ApplyIsWinners(past);
      WinnersLevel(past);
      WalkMeaning(Winners(past, past), s);
      UnbeatenByWinners(past, s);
      WinnersShrink(past, past, s);
      UnbeatenSnoc(s, past, s);
      if !Unbeaten(s, past) {
        NothingBeaten(past, s);
      }
    }
  }

  /** In a slot filled by updates alone, an update that stops early has removed nothing:
      it leaves the slot as it was, and it does so exactly when the new setting is
      beaten by some earlier one. */
  lemma EarlyStopRemovesNothing(history: seq<Setting>, s: Setting)
    requires AllProper(history) && Proper(s)
    ensures Walk(Apply(history), s).1 <==> Unbeaten(s, history)
    ensures !Walk(Apply(history), s).1 ==> Walk(Apply(history), s).0 == Apply(history)
  {
    ApplyIsWinners(history);
    WinnersLevel(history);
    WalkMeaning(Apply(history), s);
    UnbeatenByWinners(history, s);
  }

  /** A setting that is beaten beats no winner. */
  lemma NothingBeaten(past: seq<Setting>, s: Setting)
    requires AllProper(past) && Proper(s) && !Unbeaten(s, past)
    ensures NotBeatenBy(Winners(past, past), s) == Winners(past, past)
  {
    WinnersMember(past, past);
    var i :| 0 <= i < |past| && past[i].name == s.name && Beats(past[i], s);
    NoneRemoved(Winners(past, past), past[i], s);
  }

  lemma {:induction false} NoneRemoved(ws: seq<Setting>, b: Setting, s: Setting)
    requires AllProper(ws) && Proper(b) && Proper(s) && b.name == s.name && Beats(b, s)
    requires forall w :: w in ws && w.name == s.name ==> Proper(w) && !Beats(b, w)
    ensures NotBeatenBy(ws, s) == ws
  {
    if ws != [] {
      assert ws[0] in ws;
      assert forall w :: w in ws[1..] ==> w in ws;
      NoneRemoved(ws[1..], b, s);
      assert ws == [ws[0]] + ws[1..];
    }
  }

  // ----- The result in terms of targets ----------------------------------------

  /** The target is for every database: it starts with a star. */
  ghost predicate ForAll(target: Option<string>)
  {
    target.Some? && exists rest :: target.value == "*" + rest
  }

  /** The target is for every database of a host: it ends with a star, which does not
      start it. */
  ghost predicate ForHost(target: Option<string>)
  {
    target.Some? && !ForAll(target) && exists host :: target.value == host + "*"
  }

  /** The target is a single database, or there is none. */
  ghost predicate ForOne(target: Option<string>)
  {
    !ForAll(target) && !ForHost(target)
  }

  lemma WildcardMeaning(target: Option<string>)
    requires target.Some? ==> target.value != ""
    ensures Wildcard(target) == if ForAll(target) then 2 else if ForHost(target) then 1 else 0
  {
    if target.Some? {
      var t := target.value;
      var n := |t| - 1;
      assert t == t[..1] + t[1..] && t == t[..n] + t[n..];
      if t[0] == '*' { assert t == "*" + t[1..]; }
      if t[n] == '*' { assert t == t[..n] + "*"; }
    }
  }

  /** A setting of the same precedence drives out another by its target alone. */
  ghost predicate DrivesOut(winner: Option<string>, target: Option<string>)
  {
    (ForAll(target) && !ForAll(winner)) || (ForHost(target) && ForOne(winner))
  }

  /** A setting is kept exactly when none of its name has a higher precedence, and none of
      the same precedence has a target that is more specific: one database before the
      databases of a host, and those before all.  Targets of one kind stay together. */
  lemma KeptExactly(history: seq<Setting>, s: Setting)
    requires AllProper(history) && s in history
    ensures s in Apply(history) <==>
      forall x :: x in history && x.name == s.name ==>
        x.precedence < s.precedence || (x.precedence == s.precedence && !DrivesOut(x.target, s.target))
  {
    hide ForAll, ForHost, Wildcard;
    ApplyIsWinners(history);
    WinnersMember(history, history);
    forall x | x in history ensures Proper(x) && (Beats(x, s) <==>
      x.precedence > s.precedence || (x.precedence == s.precedence && DrivesOut(x.target, s.target)))
    {
      var i :| 0 <= i < |history| && history[i] == x;
      var j :| 0 <= j < |history| && history[j] == s;
      WildcardMeaning(x.target);
      WildcardMeaning(s.target);
      HostIsNotAll(x.target);
      HostIsNotAll(s.target);
    }
    if Unbeaten(s, history) {
      forall x | x in history && x.name == s.name ensures !Beats(x, s) {
        var i :| 0 <= i < |history| && history[i] == x;
      }
    } else {
      var i :| 0 <= i < |history| && history[i].name == s.name && Beats(history[i], s);
      assert history[i] in history;
    }
  }

  lemma HostIsNotAll(target: Option<string>)
    ensures ForHost(target) ==> !ForAll(target)
  {
  }

  /** `x` was made after `y`. */
  ghost predicate NewerThan(xs: seq<Setting>, x: Setting, y: Setting)
  {
    exists a, b :: 0 <= b < a < |xs| && xs[a] == x && xs[b] == y
  }

  /** Nothing else is in a slot, and what is kept stands there as often as it was made, the
      newest first. */
  lemma KeptInOrder(history: seq<Setting>)
    requires AllProper(history)
    ensures forall s :: s in Apply(history) ==>
      s in history && multiset(Apply(history))[s] == multiset(history)[s]
    ensures forall i, j :: 0 <= i < j < |Apply(history)| ==>
      NewerThan(history, Apply(history)[i], Apply(history)[j])
  {
    hide NewerThan, Unbeaten;
    ApplyIsWinners(history);
    WinnersMember(history, history);
    forall s | s in Apply(history) ensures multiset(Apply(history))[s] == multiset(history)[s] {
      WinnersCount(history, history, s);
    }
    WinnersOrder(history, history);
  }

  lemma {:induction false} WinnersCount(xs: seq<Setting>, all: seq<Setting>, s: Setting)
    requires AllProper(xs) && AllProper(all) && Proper(s) && Unbeaten(s, all)
    ensures multiset(Winners(xs, all))[s] == multiset(xs)[s]
  {
    hide Unbeaten, Winners;
    if xs == [] {
      NoWinners(all);
    } else {
      var n := |xs| - 1;
      var w := Winners(xs[..n], all);
      WinnersCount(xs[..n], all, s);
      WinnersSnoc(xs, all);
      assert xs == xs[..n] + [xs[n]];
      assert Winners(xs, all) == w || Winners(xs, all) == [xs[n]] + w;
    }
  }

  lemma NoWinners(all: seq<Setting>)
    requires AllProper(all)
    ensures Winners([], all) == []
  {
  }

  lemma {:induction false} WinnersOrder(xs: seq<Setting>, all: seq<Setting>)
    requires AllProper(xs) && AllProper(all)
    ensures forall i, j :: 0 <= i < j < |Winners(xs, all)| ==>
      NewerThan(xs, Winners(xs, all)[i], Winners(xs, all)[j])
  {
    hide Unbeaten, NewerThan;
    if xs != [] {
      var n := |xs| - 1;
      var past, w, now := xs[..n], Winners(xs[..n], all), Winners(xs, all);
      WinnersOrder(past, all);
      WinnersSnoc(xs, all);
      WinnersMember(past, all);
      var d := if Unbeaten(xs[n], all) then 1 else 0;
      assert forall i :: d <= i < |now| ==> now[i] == w[i - d];
      forall i, j | 0 <= i < j < |now| ensures NewerThan(xs, now[i], now[j]) {
        if i < d {
          assert now[j] in w;
          NewestIsNewer(xs, now[j]);
        } else {
          NewerLater(xs, now[i], now[j]);
        }
      }
    }
  }

  lemma NewestIsNewer(xs: seq<Setting>, y: Setting)
    requires xs != [] && y in xs[..|xs| - 1]
    ensures NewerThan(xs, xs[|xs| - 1], y)
  {
    var past := xs[..|xs| - 1];
    var b :| 0 <= b < |past| && past[b] == y;
    assert xs[b] == y;
  }

  lemma NewerLater(xs: seq<Setting>, x: Setting, y: Setting)
    requires xs != [] && NewerThan(xs[..|xs| - 1], x, y)
    ensures NewerThan(xs, x, y)
  {
    var past := xs[..|xs| - 1];
    var a, b :| 0 <= b < a < |past| && past[a] == x && past[b] == y;
    assert xs[a] == x && xs[b] == y;
  }

  // ----- The settings array --------------------------------------------------

  class SettingsArray {
    var slots: seq<seq<Setting>>

    ghost predicate Valid()
      reads this
    {
      forall i :: 0 <= i < |slots| ==> AllProper(slots[i])
    }

    constructor ()
      ensures Valid() && slots == []
    {
      slots := [];
    }

    /** What a slot holds; a slot beyond the end holds nothing. */
    ghost function Slot(offset: nat): (r: seq<Setting>)
      reads this
    {
      if offset < |slots| then slots[offset] else []
    }

    /** `expand_settings_array2`: room for `offset`, with ten slots to spare. */
    method Expand(offset: nat)
      requires Valid()
      modifies this
      ensures Valid() && offset < |slots|
      ensures forall i: nat :: Slot(i) == old(Slot(i))
      ensures offset < |old(slots)| ==> slots == old(slots)
      ensures offset >= |old(slots)| ==> |slots| == offset + 10
    {
      if offset >= |slots| {
        var n := offset + 10;
        var grown: seq<seq<Setting>> := [];
        var i := 0;
        while i < |slots|
          invariant 0 <= i <= |slots| && grown == slots[..i]
        {
          grown := grown + [slots[i]];
          i := i + 1;
        }
        while i < n
          invariant |slots| <= i <= n && |grown| == i
          invariant forall j :: 0 <= j < i ==> grown[j] == if j < |slots| then slots[j] else []
        {
          grown := grown + [[]];
          i := i + 1;
        }
        slots := grown;
      }
    }

    /** `update_settings`, and `update_database_fun` for a database that matches. */
    method UpdateSlot(s: Setting, offset: nat)
      requires Valid() && Proper(s)
      modifies this
      ensures Valid()
      ensures Slot(offset) == Update(old(Slot(offset)), s)
      ensures forall i: nat :: i != offset ==> Slot(i) == old(Slot(i))
    {
      Expand(offset);
      var list, ended := WalkSlot(slots[offset], s);
      if ended {
        list := [s] + list;
      }
      slots := slots[offset := list];
    }
  }

  /** The loop over a slot: unlinks what `s` beats and stops at what beats `s`. */
  method WalkSlot(slot: seq<Setting>, s: Setting) returns (list: seq<Setting>, ended: bool)
    requires AllProper(slot) && Proper(s)
    ensures (list, ended) == Walk(slot, s)
  {
    list := slot;
    var sp := 0;
    assert list[0..] == list && list[..0] == [];
    assert [] + Walk(list, s).0 == Walk(list, s).0;
    while sp < |list|
      invariant 0 <= sp <= |list| && AllProper(list)
      invariant Left(list, sp, s) == Walk(slot, s)
      decreases |list| - sp
    {
      StepOver(list, sp, s);
      if list[sp].name == s.name {
        if list[sp].precedence < s.precedence {
          list := list[..sp] + list[sp + 1..];
        } else if list[sp].precedence > s.precedence {
          return list, false;
        } else if Wildcard(list[sp].target) > Wildcard(s.target) {
          list := list[..sp] + list[sp + 1..];
        } else if Wildcard(list[sp].target) < Wildcard(s.target) {
          return list, false;
        } else {
          sp := sp + 1;
        }
      } else {
        sp := sp + 1;
      }
    }
    assert list[..sp] + [] == list;
    ended := true;
  }

  /** What is behind position `sp`, followed by what a walk from there leaves. */
  ghost function Left(list: seq<Setting>, sp: nat, s: Setting): (r: (seq<Setting>, bool))
    requires AllProper(list) && Proper(s) && sp <= |list|
  {
    (list[..sp] + Walk(list[sp..], s).0, Walk(list[sp..], s).1)
  }

  lemma StepOver(list: seq<Setting>, sp: nat, s: Setting)
    requires AllProper(list) && Proper(s) && sp < |list|
    ensures var x := list[sp];
      var without := list[..sp] + list[sp + 1..];
      && AllProper(without)
      && (x.name == s.name && Beats(s, x) ==> Left(without, sp, s) == Left(list, sp, s))
      && (x.name == s.name && Beats(x, s) ==> Left(list, sp, s) == (list, false))
      && (!(x.name == s.name && (Beats(s, x) || Beats(x, s))) ==>
            Left(list, sp + 1, s) == Left(list, sp, s))
  {
    var tail, rest := list[sp..], list[sp + 1..];
    assert tail[0] == list[sp] && tail[1..] == rest;
    var without := list[..sp] + rest;
    assert without[..sp] == list[..sp] && without[sp..] == rest;
    assert list[..sp] + tail == list;
    assert list[..sp] + ([list[sp]] + Walk(rest, s).0) == list[..sp + 1] + Walk(rest, s).0;
  }
}
