/** When the hash table leads to merged-away clusters.  Readers of the table visit
    every cluster they reach, so a stale entry makes a merged-away cluster show up
    beside the one that took it over. */
module ClusterStale {
  import opened ClusterIndex
  import opened ClusterInvariant
  import opened ClusterInsert
  import opened ClusterLinks
  import opened ClusterTable

  ghost predicate Reachable(s: Index, c: nat)
  {
    exists b: nat :: Leads(s, b, c)
  }

  /** The table leads to live clusters only. */
  ghost predicate OnlyLiveReachable(s: Index)
  {
    forall c: nat :: Reachable(s, c) ==> Live(s, c)
  }

  /** Every entry is in the bucket of a key that its cluster registers. */
  ghost predicate Tidy(s: Index, h: Key -> nat)
    requires |s.table| > 0
  {
    forall b: nat, c: nat :: Leads(s, b, c) ==> Homed(s, h, b, c)
  }

  lemma TidyReachesLive(s: Index, h: Key -> nat)
    requires Consistent(s, h) && Tidy(s, h)
    ensures OnlyLiveReachable(s)
  {
    forall c: nat | Reachable(s, c) ensures Live(s, c) {
      var b: nat :| Leads(s, b, c);
      assert Homed(s, h, b, c);
      var k :| k in s.clusters[c].keys && Bucket(s, h, k) == b;
    }
  }

  /** Every live cluster is reachable, tidy or not. */
  lemma LiveIsReachable(s: Index, h: Key -> nat, c: nat)
    requires Consistent(s, h) && Live(s, c)
    ensures Reachable(s, c)
  {
    var k := s.clusters[c].recid;
    assert Registers(s, c, k);
    assert Leads(s, Bucket(s, h, k), c);
  }

  // ----- When a merged-away cluster becomes reachable --------------------------

  /** No cluster that registers one of the keys, but not the first, has an entry out of
      place. */
  ghost predicate AbsorbedAreHome(s: Index, h: Key -> nat, keys: seq<Key>)
    requires |s.table| > 0 && keys != []
  {
    forall x: nat, b: nat :: Absorbed(s, keys, x) && Leads(s, b, x) ==> Homed(s, h, b, x)
  }

  /** An accepted insertion keeps merged-away clusters out of reach exactly when no
      cluster it merges away has an entry out of place. */
  lemma OnlyLiveExactly(s: Index, h: Key -> nat, same: (Record, Record) -> bool, rec: Record, keys: seq<Key>)
    requires Consistent(s, h) && OnlyLiveReachable(s) && keys != []
    requires Insert(s, h, same, rec, keys).Accepted?
    ensures OnlyLiveReachable(Insert(s, h, same, rec, keys).state) <==> AbsorbedAreHome(s, h, keys)
  {
    hide Insert;
    var Accepted(t, c) := Insert(s, h, same, rec, keys);
    InsertTable(s, h, same, rec, keys);
    InsertMeaning(s, h, same, rec, keys);
    AbsorbedBefore(s, h, same, rec, keys);
    forall x: nat | x != c && Live(s, x) ensures Live(t, x) <==> !Touched(s, c, keys, x) {
      PlacedTouches(s, rec, keys, c, x);
    }
    if AbsorbedAreHome(s, h, keys) {
      forall y: nat | Reachable(t, y) ensures Live(t, y) {
        var b: nat :| Leads(t, b, y);
        assert LeadsAfter(s, h, c, keys, b, y);
        if y != c { assert Reachable(s, y); }
      }
    } else {
      var x: nat, b: nat :| Absorbed(s, keys, x) && Leads(s, b, x) && !Homed(s, h, b, x);
      assert LeadsAfter(s, h, c, keys, b, x);
      assert Leads(t, b, x) && Reachable(t, x);
    }
  }

  /** Placing the record changes nothing about another live cluster. */
  lemma PlacedTouches(s: Index, rec: Record, keys: seq<Key>, c: nat, x: nat)
    requires keys != [] && x < |s.clusters| && x != c && c <= |s.clusters|
    ensures var p := Placed(s, rec, keys, c);
      && p.clusters[x] == s.clusters[x]
      && (Touched(p, c, keys, x) <==> Touched(s, c, keys, x))
  {
    assert forall k :: Registers(Placed(s, rec, keys, c), x, k) <==> Registers(s, x, k);
  }

  // ----- When the table stays tidy ---------------------------------------------

  /** Bucket `b` is that of a key which the record's cluster will have: it has it
      already, or takes it over. */
  ghost predicate Housed(s: Index, h: Key -> nat, rec: Record, keys: seq<Key>, c: nat, b: nat)
    requires keys != [] && c <= |s.clusters| && |s.table| > 0
  {
    Homed(Placed(s, rec, keys, c), h, b, c) || exists x :: Moved(s, h, c, keys, b, x)
  }

  lemma TidyWhenHoused(s: Index, h: Key -> nat, same: (Record, Record) -> bool, rec: Record, keys: seq<Key>)
    requires Consistent(s, h) && Tidy(s, h) && keys != []
    requires Insert(s, h, same, rec, keys).Accepted?
    ensures var Accepted(t, c) := Insert(s, h, same, rec, keys);
      && c <= |s.clusters|
      && (Tidy(t, h) <==> forall k :: k in keys ==> Housed(s, h, rec, keys, c, Bucket(s, h, k)))
  {
    hide Insert;
    var Accepted(t, c) := Insert(s, h, same, rec, keys);
    InsertTable(s, h, same, rec, keys);
    InsertMeaning(s, h, same, rec, keys);
    forall b: nat ensures Homed(t, h, b, c) <==> Housed(s, h, rec, keys, c, b) {
      HousedIsHomed(s, h, rec, keys, t, c, b);
    }
    if Tidy(t, h) {
      forall k | k in keys ensures Housed(s, h, rec, keys, c, Bucket(s, h, k)) {
        assert BucketOfOne(s, h, keys, Bucket(s, h, k));
        assert LeadsAfter(s, h, c, keys, Bucket(s, h, k), c);
        assert Leads(t, Bucket(s, h, k), c);
      }
    }
    if forall k :: k in keys ==> Housed(s, h, rec, keys, c, Bucket(s, h, k)) {
      forall b: nat, y: nat | Leads(t, b, y) ensures Homed(t, h, b, y) {
        assert LeadsAfter(s, h, c, keys, b, y);
        if y != c {
          PlacedTouches(s, rec, keys, c, y);
          SameHome(Placed(s, rec, keys, c), t, h, b, y);
          assert Homed(s, h, b, y);
        } else if Leads(s, b, c) {
          assert Homed(s, h, b, c);
        } else if x :| MovedFrom(s, h, c, keys, b, x) {
          assert Moved(s, h, c, keys, b, x);
        } else {
          var k :| k in keys && Bucket(s, h, k) == b;
        }
      }
    }
  }

  /** Bucket `b` is that of some key of a cluster that registers one of the keys. */
  ghost predicate MetHome(s: Index, h: Key -> nat, keys: seq<Key>, b: nat)
    requires |s.table| > 0
  {
    exists x: nat :: Meets(s, keys, x) && Homed(s, h, b, x)
  }

  /** An accepted insertion keeps the table tidy exactly when the record starts a cluster,
      or the bucket of each of its keys is that of some key of a cluster which registers
      one of them. */
  lemma TidyExactly(s: Index, h: Key -> nat, same: (Record, Record) -> bool, rec: Record, keys: seq<Key>)
    requires Consistent(s, h) && Tidy(s, h) && keys != []
    requires Insert(s, h, same, rec, keys).Accepted?
    ensures Tidy(Insert(s, h, same, rec, keys).state, h) <==>
      !Registered(s, keys[0]) || forall k :: k in keys ==> MetHome(s, h, keys, Bucket(s, h, k))
  {
    hide Insert;
    var c := Insert(s, h, same, rec, keys).cluster;
    TidyWhenHoused(s, h, same, rec, keys);
    InsertMeaning(s, h, same, rec, keys);
    AbsorbedBefore(s, h, same, rec, keys);
    var p := Placed(s, rec, keys, c);
    forall k | k in keys
      ensures Housed(s, h, rec, keys, c, Bucket(s, h, k)) <==>
        c == |s.clusters| || MetHome(s, h, keys, Bucket(s, h, k))
    {
      var b := Bucket(s, h, k);
      if c == |s.clusters| {
        NewClusterRegisters(s, rec, keys, c, k);
        assert Bucket(p, h, k) == b;
      } else {
        SameHome(s, p, h, b, c);
        if x: nat :| Meets(s, keys, x) && Homed(s, h, b, x) {
          assert x == c || Moved(s, h, c, keys, b, x);
        }
        if x :| Moved(s, h, c, keys, b, x) { assert Meets(s, keys, x) && Homed(s, h, b, x); }
        if Homed(p, h, b, c) { assert Meets(s, keys, c) && Homed(s, h, b, c); }
      }
    }
  }

  /** The keys of the record's cluster afterwards are those it has and those it takes
      over. */
  lemma HousedIsHomed(s: Index, h: Key -> nat, rec: Record, keys: seq<Key>, t: Index, c: nat, b: nat)
    requires keys != [] && c <= |s.clusters| && Sized(s)
    requires TookOver(Placed(s, rec, keys, c), t, c, keys)
    ensures Homed(t, h, b, c) <==> Housed(s, h, rec, keys, c, b)
  {
    var p := Placed(s, rec, keys, c);
    assert |p.table| == |s.table|;
    hide Placed, TookOver, Homed;
    if Homed(t, h, b, c) {
      HomedByKey(p, h, t, c, keys, b);
      if x: nat :| Moved(p, h, c, keys, b, x) {
        TouchedIn(s, h, rec, keys, c, b, x);
      }
    }
    if Homed(p, h, b, c) { HomedByKey(p, h, t, c, keys, b); }
    if x :| Moved(s, h, c, keys, b, x) {
      TouchedIn(s, h, rec, keys, c, b, x);
      HomedByKey(p, h, t, c, keys, b);
    }
  }

  lemma HomedByKey(p: Index, h: Key -> nat, t: Index, c: nat, keys: seq<Key>, b: nat)
    requires TookOver(p, t, c, keys) && |p.table| > 0
    ensures Homed(t, h, b, c) <==> Homed(p, h, b, c) || exists x: nat :: Moved(p, h, c, keys, b, x)
  {
    assert forall k :: Bucket(t, h, k) == Bucket(p, h, k);
    if Homed(t, h, b, c) {
      var k :| k in t.clusters[c].keys && Bucket(t, h, k) == b;
      if k !in p.clusters[c].keys {
        var x :| KeyFrom(p, c, keys, x, k);
        assert Moved(p, h, c, keys, b, x);
      }
    }
    if x: nat :| Moved(p, h, c, keys, b, x) {
      var k :| k in p.clusters[x].keys && Bucket(p, h, k) == b;
      assert KeyFrom(p, c, keys, x, k);
    }
  }

  lemma TouchedIn(s: Index, h: Key -> nat, rec: Record, keys: seq<Key>, c: nat, b: nat, x: nat)
    requires keys != [] && c <= |s.clusters| && |s.table| > 0 && x != c
    ensures var p := Placed(s, rec, keys, c);
      |p.table| == |s.table| && (Moved(p, h, c, keys, b, x) <==> Moved(s, h, c, keys, b, x))
  {
    var p := Placed(s, rec, keys, c);
    assert forall k :: Bucket(p, h, k) == Bucket(s, h, k);
    if x < |s.clusters| {
      PlacedTouches(s, rec, keys, c, x);
    }
  }

  /** A record whose keys are all known, or that starts a cluster, leaves the table
      tidy. */
  lemma InsertTidy(s: Index, h: Key -> nat, same: (Record, Record) -> bool, rec: Record, keys: seq<Key>)
    requires Consistent(s, h) && Tidy(s, h) && keys != [] && AllKnown(s, keys)
    requires Insert(s, h, same, rec, keys).Accepted?
    ensures Tidy(Insert(s, h, same, rec, keys).state, h)
  {
    hide Insert;
    TidyExactly(s, h, same, rec, keys);
    if Registered(s, keys[0]) {
      forall k | k in keys ensures MetHome(s, h, keys, Bucket(s, h, k)) {
        var x: nat :| Registers(s, x, k);
        assert Meets(s, keys, x) && Homed(s, h, Bucket(s, h, k), x);
      }
    }
  }

  /** Some key is not registered by anybody: one longer than all that are. */
  lemma FreshKey(s: Index) returns (z: Key)
    ensures !Registered(s, z)
  {
    var n: nat := 0;
    for c := 0 to |s.clusters|
      invariant forall d, k :: 0 <= d < c && k in s.clusters[d].keys ==> |k| <= n
    {
      var keys := s.clusters[c].keys;
      for i := 0 to |keys|
        invariant forall j :: 0 <= j < i ==> |keys[j]| <= n
        invariant forall d, k :: 0 <= d < c && k in s.clusters[d].keys ==> |k| <= n
      {
        if n < |keys[i]| { n := |keys[i]|; }
      }
    }
    z := seq(n + 1, _ => 'z');
    forall c: nat | c < |s.clusters| ensures z !in s.clusters[c].keys {
      assert z in s.clusters[c].keys ==> |z| <= n;
    }
  }

  /** From a table that is not tidy, one more record makes a merged-away cluster
      reachable, if none is so already: a record with an unused key and a key of the
      cluster whose entry is out of place. */
  lemma UntidyGoesStale(s: Index, h: Key -> nat, same: (Record, Record) -> bool, rec: Record)
      returns (keys: seq<Key>)
    requires Consistent(s, h) && !Tidy(s, h) && OnlyLiveReachable(s)
    ensures keys != []
    ensures var o := Insert(s, h, same, rec, keys); o.Accepted? && !OnlyLiveReachable(o.state)
  {
    hide Insert;
    var b: nat, x: nat :| Leads(s, b, x) && !Homed(s, h, b, x);
    assert Reachable(s, x) && Live(s, x);
    var z := FreshKey(s);
    var k := s.clusters[x].recid;
    keys := [z, k];
    assert keys[1] == k && Registers(s, x, k);
    var e := InsertCreates(s, h, same, rec, keys);
    assert Absorbed(s, keys, x);
    OnlyLiveExactly(s, h, same, rec, keys);
  }

  // ----- A run that leaves a merged-away cluster in the table --------------------

  /** The third record: a new key, and the key of the first two. */
  const STALE_INPUT := Input(Record(3, 3, 1), ["z", "a"])

  /** Three records, the second with a key that it does not register: if the buckets of
      the two keys differ, the third merges away a cluster that stays reachable. */
  lemma StaleRun(size: nat, veclen: nat, h: Key -> nat, same: (Record, Record) -> bool)
    requires size > 0 && h("a") % size != h("b") % size
    ensures var (s1, hist1) := Step(Empty(size, veclen), map[], h, same, LooseInputs()[0]);
      var (s2, hist2) := Step(s1, hist1, h, same, LooseInputs()[1]);
      var (s3, _) := Step(s2, hist2, h, same, STALE_INPUT);
      OnlyLiveReachable(s2) && !OnlyLiveReachable(s3)
  {
    var (s1, hist1) := Step(Empty(size, veclen), map[], h, same, LooseInputs()[0]);
    LooseFirst(size, veclen, h, same);
    FirstReach(size, veclen, h, same);
    LooseSecond(s1, hist1, h, same);
    SecondReach(s1, h, same);
    var (s2, hist2) := Step(s1, hist1, h, same, LooseInputs()[1]);
    ThirdReach(s2, h, same);
  }

  lemma FirstReach(size: nat, veclen: nat, h: Key -> nat, same: (Record, Record) -> bool)
    requires size > 0
    ensures var (s, _) := Step(Empty(size, veclen), map[], h, same, LooseInputs()[0]);
      OnlyLiveReachable(s) && |s.table| == size && |s.clusters| == 1
  {
    var s, i := Empty(size, veclen), LooseInputs()[0];
    EmptyGood(size, veclen, h);
    InsertRejects(s, h, same, i.rec, i.keys);
    OnlyLiveExactly(s, h, same, i.rec, i.keys);
    InsertMeaning(s, h, same, i.rec, i.keys);
  }

  lemma SecondReach(s: Index, h: Key -> nat, same: (Record, Record) -> bool)
    requires Consistent(s, h) && OnlyLiveReachable(s)
    requires forall x, k :: Registers(s, x, k) <==> x == 0 && k == "a"
    requires var i := LooseInputs()[1]; Insert(s, h, same, i.rec, i.keys).Accepted?
    ensures var i := LooseInputs()[1];
      var t := Insert(s, h, same, i.rec, i.keys).state;
      && Consistent(t, h) && OnlyLiveReachable(t) && |t.table| == |s.table|
      && (forall x, k :: Registers(t, x, k) <==> x == 0 && k == "a")
      && Leads(t, Bucket(t, h, "b"), 0)
  {
    hide Insert;
    var i := LooseInputs()[1];
    var Accepted(t, c) := Insert(s, h, same, i.rec, i.keys);
    assert i.keys[0] == "a" && i.keys[1] == "b";
    InsertMeaning(s, h, same, i.rec, i.keys);
    InsertTable(s, h, same, i.rec, i.keys);
    assert Registers(s, 0, "a") && c == 0;
    OnlyLiveExactly(s, h, same, i.rec, i.keys);
    forall x, k ensures Registers(t, x, k) <==> x == 0 && k == "a" {
      RegistersBefore(s, h, same, i.rec, i.keys, x, k);
    }
    assert BucketOfOne(s, h, i.keys, Bucket(s, h, "b"));
    assert LeadsAfter(s, h, c, i.keys, Bucket(s, h, "b"), 0);
  }

  lemma ThirdReach(s: Index, h: Key -> nat, same: (Record, Record) -> bool)
    requires Consistent(s, h) && OnlyLiveReachable(s) && Bucket(s, h, "a") != Bucket(s, h, "b")
    requires forall x, k :: Registers(s, x, k) <==> x == 0 && k == "a"
    requires Leads(s, Bucket(s, h, "b"), 0)
    ensures var o := Insert(s, h, same, STALE_INPUT.rec, STALE_INPUT.keys);
      o.Accepted? && !OnlyLiveReachable(o.state)
  {
    hide Insert;
    var keys := STALE_INPUT.keys;
    assert keys[0] == "z" && keys[1] == "a";
    var e := InsertCreates(s, h, same, STALE_INPUT.rec, keys);
    OnlyLiveExactly(s, h, same, STALE_INPUT.rec, keys);
    assert Registers(s, 0, "a") && Absorbed(s, keys, 0);
    forall k | k in s.clusters[0].keys ensures k == "a" {
      assert Registers(s, 0, k);
    }
    assert !Homed(s, h, Bucket(s, h, "b"), 0);
  }

  /** After a guarded run the table leads to live clusters only. */
  lemma {:induction false} GuardedRunIsTidy(size: nat, veclen: nat, h: Key -> nat,
                                            same: (Record, Record) -> bool, inputs: seq<Input>)
    requires size > 0 && Proper(inputs) && Guarded(size, veclen, h, same, inputs)
    ensures var (s, _) := Run(size, veclen, h, same, inputs); Tidy(s, h) && OnlyLiveReachable(s)
  {
    hide Insert, Consistent, Tidy, OnlyLiveReachable, AllKnown, Guarded;
    RunIsGood(size, veclen, h, same, inputs);
    if inputs == [] {
      EmptyTidy(size, veclen, h);
    } else {
      var n := |inputs| - 1;
      GuardedLast(size, veclen, h, same, inputs);
      GuardedRunIsTidy(size, veclen, h, same, inputs[..n]);
      var (s, hist) := Run(size, veclen, h, same, inputs[..n]);
      if Insert(s, h, same, inputs[n].rec, inputs[n].keys).Accepted? {
        InsertTidy(s, h, same, inputs[n].rec, inputs[n].keys);
      }
    }
    TidyReachesLive(Run(size, veclen, h, same, inputs).0, h);
  }

  lemma EmptyTidy(size: nat, veclen: nat, h: Key -> nat)
    requires size > 0
    ensures Tidy(Empty(size, veclen), h)
  {
  }
}
