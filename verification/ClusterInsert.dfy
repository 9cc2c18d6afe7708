/** What one insertion means: which clusters become one, what they hold, and
    that the invariant is kept. */
module ClusterInsert {
  import opened ClusterIndex
  import opened ClusterInvariant

  /** Live clusters other than `cur` that register one of the keys. */
  ghost predicate Touched(s: Index, cur: nat, keys: seq<Key>, x: nat)
  {
    x != cur && exists k :: k in keys && Registers(s, x, k)
  }

  /** Cluster `cur` has taken over every touched cluster, and nothing else has
      happened to any cluster. */
  ghost predicate TookOver(s: Index, t: Index, cur: nat, keys: seq<Key>)
  {
    && |t.clusters| == |s.clusters| && |t.table| == |s.table| && t.veclen == s.veclen
    && cur < |s.clusters|
    && (forall x :: 0 <= x < |s.clusters| && x != cur ==>
          t.clusters[x] == s.clusters[x].(live := s.clusters[x].live && !Touched(s, cur, keys, x)))
    && t.clusters[cur].live == s.clusters[cur].live
    && t.clusters[cur].recid == s.clusters[cur].recid
    && s.clusters[cur].records <= t.clusters[cur].records
    && (forall k :: k in t.clusters[cur].keys <==>
          k in s.clusters[cur].keys || exists x :: KeyFrom(s, cur, keys, x, k))
    && (forall r :: r in t.clusters[cur].records <==>
          r in s.clusters[cur].records || exists x :: RecordFrom(s, cur, keys, x, r))
  }

  ghost predicate KeyFrom(s: Index, cur: nat, keys: seq<Key>, x: nat, k: Key)
  {
    Touched(s, cur, keys, x) && k in s.clusters[x].keys
  }

  ghost predicate RecordFrom(s: Index, cur: nat, keys: seq<Key>, x: nat, r: Record)
  {
    Touched(s, cur, keys, x) && r in s.clusters[x].records
  }

  lemma AbsorbTookOver(s: Index, h: Key -> nat, cur: nat, m: Key, pending: seq<Key>)
    requires Held(s, h, cur, pending) && Live(s, cur)
    ensures TookOver(s, Absorb(s, h, cur, m), cur, [m])
  {
    var t := Absorb(s, h, cur, m);
    assert forall x :: Touched(s, cur, [m], x) <==> x != cur && Registers(s, x, m) by {
      assert m in [m];
    }
    if exists x :: x != cur && Registers(s, x, m) {
      var x: nat :| x != cur && Registers(s, x, m) && t == Merge(s, h, cur, x);
      assert forall y :: y != cur && Registers(s, y, m) ==> y == x;
      AppendKeysMeaning(s.clusters[cur].keys, s.clusters[x].keys);
      forall k ensures k in t.clusters[cur].keys <==>
          k in s.clusters[cur].keys || exists x :: KeyFrom(s, cur, [m], x, k) {
        if k in s.clusters[x].keys { assert KeyFrom(s, cur, [m], x, k); }
      }
      forall r ensures r in t.clusters[cur].records <==>
          r in s.clusters[cur].records || exists x :: RecordFrom(s, cur, [m], x, r) {
        if r in s.clusters[x].records { assert RecordFrom(s, cur, [m], x, r); }
      }
    }
  }

  /** Who is touched by all keys is touched by the first, or by the others afterwards. */
  lemma TouchedTwice(s: Index, t: Index, cur: nat, keys: seq<Key>)
    requires keys != [] && TookOver(s, t, cur, keys[..1])
    ensures forall x: nat :: x != cur ==>
      (Touched(s, cur, keys, x) <==> Touched(s, cur, keys[..1], x) || Touched(t, cur, keys[1..], x))
    ensures forall x: nat :: x != cur && Touched(t, cur, keys[1..], x) ==> t.clusters[x] == s.clusters[x]
  {
    assert keys == keys[..1] + keys[1..];
    forall x: nat | x != cur
      ensures Touched(s, cur, keys, x) <==> Touched(s, cur, keys[..1], x) || Touched(t, cur, keys[1..], x)
      ensures Touched(t, cur, keys[1..], x) ==> t.clusters[x] == s.clusters[x]
    {
      if Touched(s, cur, keys[1..], x) && !Touched(s, cur, keys[..1], x) {
        var k :| k in keys[1..] && Registers(s, x, k);
        assert Registers(t, x, k);
      }
      if Touched(t, cur, keys[1..], x) {
        var k :| k in keys[1..] && Registers(t, x, k);
        assert Registers(s, x, k) && k in keys;
      }
    }
  }

  /** Taking over on one key and then on the others is taking over on all. */
  lemma TookOverTwice(s: Index, t: Index, u: Index, cur: nat, keys: seq<Key>)
    requires keys != [] && Live(s, cur)
    requires TookOver(s, t, cur, keys[..1]) && TookOver(t, u, cur, keys[1..])
    ensures TookOver(s, u, cur, keys)
  {
    TouchedTwice(s, t, cur, keys);
    forall k ensures k in u.clusters[cur].keys <==>
        k in s.clusters[cur].keys || exists x :: KeyFrom(s, cur, keys, x, k) {
      if x :| KeyFrom(s, cur, keys[..1], x, k) { assert KeyFrom(s, cur, keys, x, k); }
      if x :| KeyFrom(t, cur, keys[1..], x, k) { assert KeyFrom(s, cur, keys, x, k); }
      if x :| KeyFrom(s, cur, keys, x, k) {
        assert KeyFrom(s, cur, keys[..1], x, k) || KeyFrom(t, cur, keys[1..], x, k);
      }
    }
    forall r ensures r in u.clusters[cur].records <==>
        r in s.clusters[cur].records || exists x :: RecordFrom(s, cur, keys, x, r) {
      if x :| RecordFrom(s, cur, keys[..1], x, r) { assert RecordFrom(s, cur, keys, x, r); }
      if x :| RecordFrom(t, cur, keys[1..], x, r) { assert RecordFrom(s, cur, keys, x, r); }
      if x :| RecordFrom(s, cur, keys, x, r) {
        assert RecordFrom(s, cur, keys[..1], x, r) || RecordFrom(t, cur, keys[1..], x, r);
      }
    }
  }

  lemma KeyPassMeaning(s: Index, h: Key -> nat, cur: nat, pending: seq<Key>)
    requires pending != [] && Held(s, h, cur, pending) && Live(s, cur)
    ensures var t := KeyPass(s, h, cur, pending[0]);
      && Held(t, h, cur, pending[1..]) && Live(t, cur)
      && TookOver(s, t, cur, pending[..1])
      && t.clusters == Absorb(s, h, cur, pending[0]).clusters
  {
    var m := pending[0];
    assert pending[..1] == [m];
    var chain := s.table[Bucket(s, h, m)];
    assert chain[0..] == chain;
    WalkMeaning(s, h, cur, m, 0, pending);
    var (t, hit) := Walk(s, h, cur, m, 0);
    AbsorbTookOver(s, h, cur, m, pending);
    if hit {
      EndPass(t, h, cur, pending);
    } else {
      var b := Bucket(s, h, m);
      AddEntryKeeps(s, h, b, cur, pending);
      var u := AddEntry(s, b, cur);
      assert forall x, k :: Registers(u, x, k) <==> Registers(s, x, k);
      assert u.table[b] == s.table[b] + [cur];
      EndPass(u, h, cur, pending);
    }
  }

  lemma {:induction false} PassesMeaning(s: Index, h: Key -> nat, cur: nat, keys: seq<Key>)
    requires Held(s, h, cur, keys) && Live(s, cur)
    ensures var t := Passes(s, h, cur, keys);
      && Held(t, h, cur, []) && Live(t, cur) && TookOver(s, t, cur, keys)
    decreases |keys|
  {
    if keys != [] {
      KeyPassMeaning(s, h, cur, keys);
      var t := KeyPass(s, h, cur, keys[0]);
      PassesMeaning(t, h, cur, keys[1..]);
      TookOverTwice(s, t, Passes(s, h, cur, keys), cur, keys);
    }
  }

  // ----- One insertion -------------------------------------------------------

  /** The first entry found in the bucket of a key is the one live cluster that
      registers it, and there is none exactly when nobody does. */
  lemma FirstHitMeaning(s: Index, h: Key -> nat, m: Key)
    requires Consistent(s, h)
    ensures FirstHit(s, h, m, 0).Some? <==> Registered(s, m)
    ensures FirstHit(s, h, m, 0).Some? ==>
      Registers(s, s.table[Bucket(s, h, m)][FirstHit(s, h, m, 0).value], m)
  {
    var f, chain := FirstHit(s, h, m, 0), s.table[Bucket(s, h, m)];
    if f.Some? {
      assert chain[f.value] in chain;
      assert Registers(s, chain[f.value], m);
    }
  }

  /** The state just after the record has got its cluster, before its keys are
      looked up: joined to the cluster that registers its first key, or alone in a
      new one. */
  ghost function Placed(s: Index, rec: Record, keys: seq<Key>, c: nat): (r: Index)
    requires keys != [] && c <= |s.clusters|
  {
    if c < |s.clusters| then Join(s, c, rec) else NewCluster(s, rec, keys)
  }

  /** After the first key: the record is placed, the other keys are pending. */
  lemma InsertStarts(s: Index, h: Key -> nat, same: (Record, Record) -> bool, rec: Record, keys: seq<Key>)
      returns (e: Index)
    requires Consistent(s, h) && keys != []
    requires Insert(s, h, same, rec, keys).Accepted?
    ensures var Accepted(t, c) := Insert(s, h, same, rec, keys);
      && (if Registered(s, keys[0])
          then Registers(s, c, keys[0]) && !Repeats(s.clusters[c].records, rec, same)
          else c == |s.clusters|)
      && Held(e, h, c, keys[1..]) && Live(e, c)
      && e.clusters == Placed(s, rec, keys, c).clusters
      && |e.table| == |s.table| && e.veclen == s.veclen
      && Accepted(e, c) == FirstPass(s, h, same, rec, keys)
      && t == Passes(e, h, c, keys[1..])
  {
    FirstHitMeaning(s, h, keys[0]);
    if Registered(s, keys[0]) {
      e := InsertJoins(s, h, same, rec, keys);
    } else {
      e := InsertCreates(s, h, same, rec, keys);
    }
  }

  lemma InsertJoins(s: Index, h: Key -> nat, same: (Record, Record) -> bool, rec: Record, keys: seq<Key>)
      returns (e: Index)
    requires Consistent(s, h) && keys != [] && Registered(s, keys[0])
    requires Insert(s, h, same, rec, keys).Accepted?
    ensures var Accepted(t, c) := Insert(s, h, same, rec, keys);
      && Registers(s, c, keys[0])
      && !Repeats(s.clusters[c].records, rec, same)
      && e == Join(s, c, rec)
      && Held(e, h, c, keys[1..]) && Live(e, c)
      && Accepted(e, c) == FirstPass(s, h, same, rec, keys)
      && t == Passes(e, h, c, keys[1..])
  {
    var m := keys[0];
    FirstHitMeaning(s, h, m);
    var i := FirstHit(s, h, m, 0).value;
    var c := s.table[Bucket(s, h, m)][i];
    HeldFromConsistent(s, h, c, keys[1..]);
    JoinKeeps(s, h, c, rec, keys[1..]);
    e := Join(s, c, rec);
    assert forall x, k :: Registers(e, x, k) <==> Registers(s, x, k);
    WalkIdle(e, h, c, m, i + 1);
  }

  lemma InsertCreates(s: Index, h: Key -> nat, same: (Record, Record) -> bool, rec: Record, keys: seq<Key>)
      returns (e: Index)
    requires Consistent(s, h) && keys != [] && !Registered(s, keys[0])
    ensures Insert(s, h, same, rec, keys).Accepted?
    ensures var Accepted(t, c) := Insert(s, h, same, rec, keys);
      && c == |s.clusters|
      && e == AddEntry(NewCluster(s, rec, keys), Bucket(s, h, keys[0]), c)
      && Held(e, h, c, keys[1..]) && Live(e, c)
      && Accepted(e, c) == FirstPass(s, h, same, rec, keys)
      && t == Passes(e, h, c, keys[1..])
  {
    var m, c := keys[0], |s.clusters|;
    FirstHitMeaning(s, h, m);
    NewClusterKeeps(s, h, rec, keys);
    var n, b := NewCluster(s, rec, keys), Bucket(s, h, m);
    assert Live(n, c);
    AddEntryKeeps(n, h, b, c, keys);
    e := AddEntry(n, b, c);
    assert e.table[b] == n.table[b] + [c];
    forall x | Registers(e, x, m) ensures x == c {
      NewClusterRegisters(s, rec, keys, x, m);
      assert Registers(n, x, m);
      if x != c { assert Registered(s, m); }
    }
    EndPass(e, h, c, keys);
  }

  lemma TookOverSameClusters(s: Index, s': Index, t: Index, cur: nat, keys: seq<Key>)
    requires TookOver(s, t, cur, keys) && s'.clusters == s.clusters
    requires |s'.table| == |s.table| && s'.veclen == s.veclen
    ensures TookOver(s', t, cur, keys)
  {
    assert forall x, k :: Registers(s, x, k) <==> Registers(s', x, k);
    assert forall x :: Touched(s, cur, keys, x) <==> Touched(s', cur, keys, x);
    assert forall x, k :: KeyFrom(s, cur, keys, x, k) <==> KeyFrom(s', cur, keys, x, k);
    assert forall x, r :: RecordFrom(s, cur, keys, x, r) <==> RecordFrom(s', cur, keys, x, r);
  }

  /** The meaning of an accepted insertion, in one statement.  The record goes to
      the one live cluster that registers its first key, or to a new one if there
      is none; that cluster takes over every other live cluster that registers any
      of the keys; and the invariant holds again. */
  lemma InsertMeaning(s: Index, h: Key -> nat, same: (Record, Record) -> bool, rec: Record, keys: seq<Key>)
    requires Consistent(s, h) && keys != []
    requires Insert(s, h, same, rec, keys).Accepted?
    ensures var Accepted(t, c) := Insert(s, h, same, rec, keys);
      && (if Registered(s, keys[0]) then Registers(s, c, keys[0]) else c == |s.clusters|)
      && Consistent(t, h) && Live(t, c)
      && TookOver(Placed(s, rec, keys, c), t, c, keys)
  {
    var e := InsertStarts(s, h, same, rec, keys);
    var Accepted(t, c) := Insert(s, h, same, rec, keys);
    PassesMeaning(e, h, c, keys[1..]);
    TookOverSameClusters(e, Placed(s, rec, keys, c), t, c, keys[1..]);
    var p := Placed(s, rec, keys, c);
    forall x | Registers(p, x, keys[0]) ensures x == c {
      if c == |s.clusters| {
        NewClusterRegisters(s, rec, keys, x, keys[0]);
      } else {
        assert Registers(s, x, keys[0]);
      }
    }
    assert keys == [keys[0]] + keys[1..];
    assert forall x :: Touched(p, c, keys[1..], x) <==> Touched(p, c, keys, x);
    assert forall x, k :: KeyFrom(p, c, keys[1..], x, k) <==> KeyFrom(p, c, keys, x, k);
    assert forall x, r :: RecordFrom(p, c, keys[1..], x, r) <==> RecordFrom(p, c, keys, x, r);
  }

  /** A rejection happens exactly when the first key is registered by a cluster with a
      record of the same client that `same` takes for the new one. */
  lemma InsertRejects(s: Index, h: Key -> nat, same: (Record, Record) -> bool, rec: Record, keys: seq<Key>)
    requires Consistent(s, h) && keys != []
    ensures Insert(s, h, same, rec, keys).Duplicate? <==>
      exists c: nat, r ::
        Registers(s, c, keys[0]) && r in s.clusters[c].records && r.client == rec.client && same(rec, r)
  {
    FirstHitMeaning(s, h, keys[0]);
    if FirstHit(s, h, keys[0], 0).Some? {
      var c := s.table[Bucket(s, h, keys[0])][FirstHit(s, h, keys[0], 0).value];
      assert Registers(s, c, keys[0]);
      assert forall d :: Registers(s, d, keys[0]) ==> d == c;
    }
  }

  // ----- What can be known before ----------------------------------------------

  ghost predicate Meets(s: Index, keys: seq<Key>, x: nat)
  {
    exists k :: k in keys && Registers(s, x, k)
  }

  /** Cluster `x` registers one of the keys, but not the first, which decides where the
      record goes. */
  ghost predicate Absorbed(s: Index, keys: seq<Key>, x: nat)
    requires keys != []
  {
    Meets(s, keys, x) && !Registers(s, x, keys[0])
  }

  /** Which clusters an accepted record merges into its own can be told before it is
      inserted. */
  lemma AbsorbedBefore(s: Index, h: Key -> nat, same: (Record, Record) -> bool, rec: Record, keys: seq<Key>)
    requires Consistent(s, h) && keys != []
    requires Insert(s, h, same, rec, keys).Accepted?
    ensures var c := Insert(s, h, same, rec, keys).cluster;
      forall x :: (Touched(s, c, keys, x) <==> Absorbed(s, keys, x))
        && (Meets(s, keys, x) <==> (x == c < |s.clusters|) || Touched(s, c, keys, x))
  {
    hide Insert;
    InsertMeaning(s, h, same, rec, keys);
    var c := Insert(s, h, same, rec, keys).cluster;
    assert keys[0] in keys;
    forall x
      ensures Touched(s, c, keys, x) <==> Absorbed(s, keys, x)
      ensures Meets(s, keys, x) <==> (x == c < |s.clusters|) || Touched(s, c, keys, x)
    {
      if Registers(s, x, keys[0]) { assert Registered(s, keys[0]) && x == c; }
    }
  }
}
