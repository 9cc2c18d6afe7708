/** Where the buckets lead after an insertion: exactly which entries are redirected, which
    are added and which stay behind. */
module ClusterTable {
  import opened ClusterIndex
  import opened ClusterInvariant
  import opened ClusterInsert

  ghost predicate Leads(s: Index, b: nat, c: nat)
  {
    b < |s.table| && c in s.table[b]
  }

  /** The bucket is that of a key in the cluster's list. */
  ghost predicate Homed(s: Index, h: Key -> nat, b: nat, c: nat)
    requires |s.table| > 0
  {
    c < |s.clusters| && exists k :: k in s.clusters[c].keys && Bucket(s, h, k) == b
  }

  /** A merge into `cur` redirects the entries of `x` in bucket `b`. */
  ghost predicate Moved(s: Index, h: Key -> nat, cur: nat, keys: seq<Key>, b: nat, x: nat)
    requires |s.table| > 0
  {
    Touched(s, cur, keys, x) && Homed(s, h, b, x)
  }

  ghost predicate MovedFrom(s: Index, h: Key -> nat, cur: nat, keys: seq<Key>, b: nat, x: nat)
    requires |s.table| > 0
  {
    Moved(s, h, cur, keys, b, x) && Leads(s, b, x)
  }

  ghost predicate BucketOfOne(s: Index, h: Key -> nat, keys: seq<Key>, b: nat)
    requires |s.table| > 0
  {
    exists k :: k in keys && Bucket(s, h, k) == b
  }

  /** Bucket `b` comes to lead to `cur`: it belongs to one of the keys, or an entry in it
      is redirected. */
  ghost predicate Gains(s: Index, h: Key -> nat, cur: nat, keys: seq<Key>, b: nat)
    requires |s.table| > 0
  {
    BucketOfOne(s, h, keys, b) || exists x :: MovedFrom(s, h, cur, keys, b, x)
  }

  /** What bucket `b` leads to after handling `keys` for cluster `cur`. */
  ghost predicate LeadsAfter(s: Index, h: Key -> nat, cur: nat, keys: seq<Key>, b: nat, y: nat)
    requires |s.table| > 0
  {
    if y == cur then Leads(s, b, cur) || Gains(s, h, cur, keys, b)
    else Leads(s, b, y) && !Moved(s, h, cur, keys, b, y)
  }

  ghost predicate TableAfter(s: Index, t: Index, h: Key -> nat, cur: nat, keys: seq<Key>)
    requires |s.table| > 0
  {
    && |t.table| == |s.table|
    && forall b: nat, y: nat :: b < |s.table| ==> (Leads(t, b, y) <==> LeadsAfter(s, h, cur, keys, b, y))
  }

  /** A merge redirects the entries in the buckets of the merged cluster's own keys, and
      no others. */
  lemma MergeTable(s: Index, h: Key -> nat, cur: nat, x: nat, b: nat, y: nat)
    requires Sized(s) && cur < |s.clusters| && x < |s.clusters| && cur != x && b < |s.table|
    ensures Leads(Merge(s, h, cur, x), b, y) <==>
      if y == cur then Leads(s, b, cur) || (Homed(s, h, b, x) && Leads(s, b, x))
      else Leads(s, b, y) && !(y == x && Homed(s, h, b, x))
  {
    var keys := s.clusters[x].keys;
    RedirectedAt(s, h, keys, x, cur, b, y);
    if Homed(s, h, b, x) {
      var k :| k in keys && Bucket(s, h, k) == b;
      RedirectedKey(s, h, keys, x, cur, k);
      if y == cur && Leads(Merge(s, h, cur, x), b, y) && !Leads(s, b, cur) {
        var i :| 0 <= i < |s.table[b]| && Redirect(s.table[b], x, cur)[i] == cur;
        assert s.table[b][i] == x;
      }
    }
  }

  lemma KeyPassTable(s: Index, h: Key -> nat, cur: nat, pending: seq<Key>)
    requires pending != [] && Held(s, h, cur, pending) && Live(s, cur)
    ensures TableAfter(s, KeyPass(s, h, cur, pending[0]), h, cur, pending[..1])
  {
    var m := pending[0];
    var p := Bucket(s, h, m);
    assert s.table[p][0..] == s.table[p];
    WalkMeaning(s, h, cur, m, 0, pending);
    var u, t := Absorb(s, h, cur, m), KeyPass(s, h, cur, m);
    forall b: nat, y: nat | b < |s.table|
      ensures Leads(t, b, y) <==> LeadsAfter(s, h, cur, pending[..1], b, y)
    {
      OneKey(s, h, cur, m, b);
      assert Leads(t, b, y) <==> Leads(u, b, y) || (b == p && y == cur);
      AbsorbTable(s, h, cur, pending, b, y);
      assert pending[..1] == [m];
    }
  }

  lemma OneKey(s: Index, h: Key -> nat, cur: nat, m: Key, b: nat)
    requires |s.table| > 0
    ensures BucketOfOne(s, h, [m], b) <==> Bucket(s, h, m) == b
    ensures forall x :: Touched(s, cur, [m], x) <==> x != cur && Registers(s, x, m)
  {
    assert m in [m];
  }

  lemma AbsorbTable(s: Index, h: Key -> nat, cur: nat, pending: seq<Key>, b: nat, y: nat)
    requires pending != [] && Held(s, h, cur, pending) && Live(s, cur) && b < |s.table|
    ensures var m := pending[0];
      Leads(Absorb(s, h, cur, m), b, y) <==>
        if y == cur then Leads(s, b, cur) || exists x :: MovedFrom(s, h, cur, [m], b, x)
        else Leads(s, b, y) && !Moved(s, h, cur, [m], b, y)
  {
    var m := pending[0];
    OneKey(s, h, cur, m, b);
    if exists x :: x != cur && Registers(s, x, m) {
      var x: nat :| x != cur && Registers(s, x, m) && Absorb(s, h, cur, m) == Merge(s, h, cur, x);
      assert forall z :: z != cur && Registers(s, z, m) ==> z == x;
      MergeTable(s, h, cur, x, b, y);
      assert MovedFrom(s, h, cur, [m], b, x) <==> Homed(s, h, b, x) && Leads(s, b, x);
    }
  }

  /** Handling one key and then the others redirects and adds what handling all does. */
  lemma TableTwice(s: Index, t: Index, u: Index, h: Key -> nat, cur: nat, keys: seq<Key>)
    requires keys != [] && Live(s, cur) && |s.table| > 0
    requires TookOver(s, t, cur, keys[..1])
    requires TableAfter(s, t, h, cur, keys[..1]) && TableAfter(t, u, h, cur, keys[1..])
    ensures TableAfter(s, u, h, cur, keys)
  {
    TouchedTwice(s, t, cur, keys);
    forall b: nat, y: nat | b < |s.table|
      ensures Leads(u, b, y) <==> LeadsAfter(s, h, cur, keys, b, y)
    {
      forall x: nat | x != cur
        ensures Moved(s, h, cur, keys, b, x) <==>
          Moved(s, h, cur, keys[..1], b, x) || Moved(t, h, cur, keys[1..], b, x)
      {
        SameHome(s, t, h, b, x);
      }
      GainsTwice(s, t, h, cur, keys, b);
    }
  }

  lemma SameHome(s: Index, t: Index, h: Key -> nat, b: nat, x: nat)
    requires |s.table| == |t.table| > 0 && |s.clusters| == |t.clusters|
    requires x < |s.clusters| ==> s.clusters[x].keys == t.clusters[x].keys
    ensures Homed(s, h, b, x) <==> Homed(t, h, b, x)
  {
    assert forall k :: Bucket(s, h, k) == Bucket(t, h, k);
  }

  lemma GainsTwice(s: Index, t: Index, h: Key -> nat, cur: nat, keys: seq<Key>, b: nat)
    requires keys != [] && |s.table| > 0 && b < |s.table| && TableAfter(s, t, h, cur, keys[..1])
    requires forall x: nat :: x != cur ==>
      (Moved(s, h, cur, keys, b, x) <==>
       Moved(s, h, cur, keys[..1], b, x) || Moved(t, h, cur, keys[1..], b, x))
    ensures Gains(s, h, cur, keys, b) <==> Gains(s, h, cur, keys[..1], b) || Gains(t, h, cur, keys[1..], b)
  {
    assert keys == keys[..1] + keys[1..];
    assert forall k :: Bucket(s, h, k) == Bucket(t, h, k);
    assert BucketOfOne(s, h, keys, b) <==> BucketOfOne(s, h, keys[..1], b) || BucketOfOne(t, h, keys[1..], b) by {
      if BucketOfOne(s, h, keys[..1], b) {
        var k :| k in keys[..1] && Bucket(s, h, k) == b;
        assert k in keys;
      }
      if BucketOfOne(t, h, keys[1..], b) {
        var k :| k in keys[1..] && Bucket(t, h, k) == b;
        assert k in keys;
      }
    }
    if x :| MovedFrom(s, h, cur, keys, b, x) {
      assert MovedFrom(s, h, cur, keys[..1], b, x) || MovedFrom(t, h, cur, keys[1..], b, x) by {
        assert Leads(t, b, x) <==> LeadsAfter(s, h, cur, keys[..1], b, x);
      }
    }
    if x :| MovedFrom(s, h, cur, keys[..1], b, x) { assert MovedFrom(s, h, cur, keys, b, x); }
    if x :| MovedFrom(t, h, cur, keys[1..], b, x) {
      assert Leads(t, b, x) <==> LeadsAfter(s, h, cur, keys[..1], b, x);
      assert MovedFrom(s, h, cur, keys, b, x);
    }
  }

  lemma {:induction false} PassesTable(s: Index, h: Key -> nat, cur: nat, keys: seq<Key>)
    requires Held(s, h, cur, keys) && Live(s, cur)
    ensures TableAfter(s, Passes(s, h, cur, keys), h, cur, keys)
    decreases |keys|
  {
    if keys == [] {
      assert forall b: nat :: b < |s.table| ==> !Gains(s, h, cur, [], b);
    } else {
      KeyPassTable(s, h, cur, keys);
      KeyPassMeaning(s, h, cur, keys);
      var t := KeyPass(s, h, cur, keys[0]);
      PassesTable(t, h, cur, keys[1..]);
      TableTwice(s, t, Passes(s, h, cur, keys), h, cur, keys);
    }
  }

  // ----- A whole insertion ---------------------------------------------------

  /** The first key's bucket leads to the record's cluster before the other keys are
      handled. */
  ghost predicate Started(s: Index, e: Index, h: Key -> nat, c: nat, keys: seq<Key>)
    requires keys != [] && |s.table| > 0
  {
    && |e.table| == |s.table|
    && (forall b: nat, y: nat :: Leads(e, b, y) <==> Leads(s, b, y) || (y == c && b == Bucket(s, h, keys[0])))
    && (forall b: nat, x: nat :: Moved(e, h, c, keys[1..], b, x) <==> Moved(s, h, c, keys, b, x))
  }

  lemma StartedTable(s: Index, e: Index, t: Index, h: Key -> nat, c: nat, keys: seq<Key>)
    requires keys != [] && |s.table| > 0 && Started(s, e, h, c, keys)
    requires TableAfter(e, t, h, c, keys[1..])
    ensures TableAfter(s, t, h, c, keys)
  {
    assert keys == [keys[0]] + keys[1..];
    assert forall k :: Bucket(s, h, k) == Bucket(e, h, k);
    forall b: nat, y: nat | b < |s.table| ensures Leads(t, b, y) <==> LeadsAfter(s, h, c, keys, b, y) {
      assert BucketOfOne(s, h, keys, b) <==> Bucket(s, h, keys[0]) == b || BucketOfOne(e, h, keys[1..], b) by {
        if BucketOfOne(e, h, keys[1..], b) {
          var k :| k in keys[1..] && Bucket(e, h, k) == b;
          assert k in keys;
        }
      }
      assert forall x :: MovedFrom(e, h, c, keys[1..], b, x) <==> MovedFrom(s, h, c, keys, b, x);
    }
  }

  /** What every bucket leads to after an accepted insertion. */
  lemma InsertTable(s: Index, h: Key -> nat, same: (Record, Record) -> bool, rec: Record, keys: seq<Key>)
    requires Consistent(s, h) && keys != []
    requires Insert(s, h, same, rec, keys).Accepted?
    ensures var Accepted(t, c) := Insert(s, h, same, rec, keys); TableAfter(s, t, h, c, keys)
  {
    var Accepted(t, c) := Insert(s, h, same, rec, keys);
    var e: Index;
    if Registered(s, keys[0]) {
      e := InsertJoins(s, h, same, rec, keys);
      JoinStarted(s, h, rec, keys, c);
    } else {
      e := InsertCreates(s, h, same, rec, keys);
      NewStarted(s, h, rec, keys);
    }
    PassesTable(e, h, c, keys[1..]);
    StartedTable(s, e, t, h, c, keys);
  }

  lemma JoinStarted(s: Index, h: Key -> nat, rec: Record, keys: seq<Key>, c: nat)
    requires Consistent(s, h) && keys != [] && Registers(s, c, keys[0])
    ensures Started(s, Join(s, c, rec), h, c, keys)
  {
    var e := Join(s, c, rec);
    assert keys == [keys[0]] + keys[1..];
    assert forall x, k :: Registers(e, x, k) <==> Registers(s, x, k);
    forall b: nat, x: nat ensures Moved(e, h, c, keys[1..], b, x) <==> Moved(s, h, c, keys, b, x) {
      SameHome(s, e, h, b, x);
      if Touched(s, c, keys, x) {
        var k :| k in keys && Registers(s, x, k);
        assert k in keys[1..] && Registers(e, x, k);
      }
    }
  }

  lemma NewStarted(s: Index, h: Key -> nat, rec: Record, keys: seq<Key>)
    requires Consistent(s, h) && keys != [] && !Registered(s, keys[0])
    ensures var c := |s.clusters|;
      Started(s, AddEntry(NewCluster(s, rec, keys), Bucket(s, h, keys[0]), c), h, c, keys)
  {
    var c := |s.clusters|;
    var e := AddEntry(NewCluster(s, rec, keys), Bucket(s, h, keys[0]), c);
    assert keys == [keys[0]] + keys[1..];
    forall b: nat, x: nat ensures Moved(e, h, c, keys[1..], b, x) <==> Moved(s, h, c, keys, b, x) {
      if x < c {
        assert forall k :: Registers(e, x, k) <==> Registers(s, x, k);
        assert Homed(e, h, b, x) <==> Homed(s, h, b, x) by {
          assert forall k :: Bucket(s, h, k) == Bucket(e, h, k);
        }
        if Touched(s, c, keys, x) {
          var k :| k in keys && Registers(s, x, k);
          assert k in keys[1..] && Registers(e, x, k);
        }
      }
    }
  }
}
