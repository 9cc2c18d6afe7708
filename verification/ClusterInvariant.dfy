/** The index invariant: what every insertion keeps, for any hash function. */
module ClusterInvariant {
  import opened Wrappers
  import opened ClusterIndex

  ghost predicate Live(s: Index, c: nat)
  {
    c < |s.clusters| && s.clusters[c].live
  }

  /** `c` is live and registers `k`. */
  ghost predicate Registers(s: Index, c: nat, k: Key)
  {
    Live(s, c) && k in s.clusters[c].keys
  }

  /** Some live cluster registers `k`. */
  ghost predicate Registered(s: Index, k: Key)
  {
    exists c :: Registers(s, c, k)
  }

  /** Each cluster by itself: keys without repeats, among them the identifier,
      and at least one record. */
  ghost predicate Sound(s: Index)
  {
    && Sized(s)
    && (forall c :: 0 <= c < |s.clusters| ==>
          && NoTwice(s.clusters[c].keys)
          && s.clusters[c].recid in s.clusters[c].keys
          && s.clusters[c].records != [])
  }

  /** Live clusters have disjoint key sets, except that the cluster at hand may
      share the pending keys of the record being inserted. */
  ghost predicate Apart(s: Index, cur: nat, pending: seq<Key>)
  {
    forall c, d, k :: Registers(s, c, k) && Registers(s, d, k) && c != d ==>
      (c == cur || d == cur) && k in pending
  }

  /** Every registered key is found in its own bucket, except the pending keys of
      the cluster at hand. */
  ghost predicate Findable(s: Index, h: Key -> nat, cur: nat, pending: seq<Key>)
    requires WellFormed(s)
  {
    forall c, k :: Registers(s, c, k) ==>
      c in s.table[Bucket(s, h, k)] || (c == cur && k in pending)
  }

  /** No bucket of a key of a merged-away cluster leads to that cluster. */
  ghost predicate DeadHidden(s: Index, h: Key -> nat)
    requires WellFormed(s)
  {
    forall c, k :: 0 <= c < |s.clusters| && !s.clusters[c].live && k in s.clusters[c].keys ==>
      c !in s.table[Bucket(s, h, k)]
  }

  /** Keys are never lost: whatever a cluster registered, some live one does. */
  ghost predicate Inherited(s: Index)
  {
    forall c, k :: 0 <= c < |s.clusters| && k in s.clusters[c].keys ==> Registered(s, k)
  }

  /** All clusters ever created have different identifiers. */
  ghost predicate DistinctIds(s: Index)
  {
    forall c, d :: 0 <= c < d < |s.clusters| ==> s.clusters[c].recid != s.clusters[d].recid
  }

  /** The invariant in the middle of an insertion. */
  ghost predicate Held(s: Index, h: Key -> nat, cur: nat, pending: seq<Key>)
  {
    && Sound(s)
    && Apart(s, cur, pending)
    && Findable(s, h, cur, pending)
    && DeadHidden(s, h)
    && Inherited(s)
    && DistinctIds(s)
  }

  /** The invariant between insertions. */
  ghost predicate Consistent(s: Index, h: Key -> nat)
  {
    Held(s, h, 0, [])
  }

  // ----- Keys ----------------------------------------------------------------

  lemma {:induction false} AppendKeysMeaning(p: seq<Key>, a: seq<Key>)
    ensures forall k :: k in AppendKeys(p, a) <==> k in p || k in a
    ensures NoTwice(p) ==> NoTwice(AppendKeys(p, a))
    ensures |AppendKeys(p, a)| >= |p| && AppendKeys(p, a)[..|p|] == p
    decreases |a|
  {
    if a != [] {
      AppendKeysMeaning(if a[0] in p then p else p + [a[0]], a[1..]);
      assert a == [a[0]] + a[1..];
    }
  }

  // ----- Merging -------------------------------------------------------------

  lemma RedirectedAt(s: Index, h: Key -> nat, keys: seq<Key>, src: nat, dst: nat, b: nat, c: nat)
    requires |s.table| > 0 && b < |s.table|
    ensures c != src && c in s.table[b] ==> c in Redirected(s, h, keys, src, dst)[b]
    ensures c != dst && c in Redirected(s, h, keys, src, dst)[b] ==> c in s.table[b]
  {
    var r := Redirected(s, h, keys, src, dst)[b];
    if c != src && c in s.table[b] {
      var i :| 0 <= i < |s.table[b]| && s.table[b][i] == c;
      assert r[i] == c;
    }
  }

  lemma RedirectedKey(s: Index, h: Key -> nat, keys: seq<Key>, src: nat, dst: nat, k: Key)
    requires |s.table| > 0 && k in keys && src != dst
    ensures src !in Redirected(s, h, keys, src, dst)[Bucket(s, h, k)]
    ensures src in s.table[Bucket(s, h, k)] ==> dst in Redirected(s, h, keys, src, dst)[Bucket(s, h, k)]
  {
    var b := Bucket(s, h, k);
    var r := Redirected(s, h, keys, src, dst)[b];
    assert r == Redirect(s.table[b], src, dst);
    if src in s.table[b] {
      var i :| 0 <= i < |s.table[b]| && s.table[b][i] == src;
      assert r[i] == dst;
    }
  }

  /** What a merge does to who registers what. */
  lemma MergeRegisters(s: Index, h: Key -> nat, cur: nat, x: nat, c: nat, k: Key)
    requires Sized(s) && Live(s, cur) && Live(s, x) && cur != x
    ensures var t := Merge(s, h, cur, x);
      Registers(t, c, k) <==>
        c != x && (Registers(s, c, k) || (c == cur && Registers(s, x, k)))
  {
    AppendKeysMeaning(s.clusters[cur].keys, s.clusters[x].keys);
  }

  lemma MergeApart(s: Index, h: Key -> nat, cur: nat, x: nat, pending: seq<Key>)
    requires Sized(s) && Live(s, cur) && Live(s, x) && cur != x
    requires Apart(s, cur, pending)
    ensures Apart(Merge(s, h, cur, x), cur, pending)
  {
    var t := Merge(s, h, cur, x);
    forall c, d, k | Registers(t, c, k) && Registers(t, d, k) && c != d
      ensures (c == cur || d == cur) && k in pending
    {
      MergeRegisters(s, h, cur, x, c, k);
      MergeRegisters(s, h, cur, x, d, k);
    }
  }

  lemma MergeFindable(s: Index, h: Key -> nat, cur: nat, x: nat, pending: seq<Key>)
    requires Sized(s) && Live(s, cur) && Live(s, x) && cur != x
    requires Findable(s, h, cur, pending)
    ensures Findable(Merge(s, h, cur, x), h, cur, pending)
  {
    var t := Merge(s, h, cur, x);
    forall c, k | Registers(t, c, k)
      ensures c in t.table[Bucket(t, h, k)] || (c == cur && k in pending)
    {
      MergeRegisters(s, h, cur, x, c, k);
      var b := Bucket(s, h, k);
      if Registers(s, c, k) {
        RedirectedAt(s, h, s.clusters[x].keys, x, cur, b, c);
      } else {
        RedirectedKey(s, h, s.clusters[x].keys, x, cur, k);
      }
    }
  }

  lemma MergeDeadHidden(s: Index, h: Key -> nat, cur: nat, x: nat)
    requires Sized(s) && Live(s, cur) && Live(s, x) && cur != x
    requires DeadHidden(s, h)
    ensures DeadHidden(Merge(s, h, cur, x), h)
  {
    var t := Merge(s, h, cur, x);
    forall c, k | 0 <= c < |t.clusters| && !t.clusters[c].live && k in t.clusters[c].keys
      ensures c !in t.table[Bucket(t, h, k)]
    {
      if c == x {
        RedirectedKey(s, h, s.clusters[x].keys, x, cur, k);
      } else {
        RedirectedAt(s, h, s.clusters[x].keys, x, cur, Bucket(s, h, k), c);
      }
    }
  }

  lemma MergeInherited(s: Index, h: Key -> nat, cur: nat, x: nat)
    requires Sized(s) && Live(s, cur) && Live(s, x) && cur != x
    requires Inherited(s)
    ensures Inherited(Merge(s, h, cur, x))
  {
    var t := Merge(s, h, cur, x);
    AppendKeysMeaning(s.clusters[cur].keys, s.clusters[x].keys);
    forall c, k | 0 <= c < |t.clusters| && k in t.clusters[c].keys
      ensures Registered(t, k)
    {
      assert k in s.clusters[c].keys || (c == cur && k in s.clusters[x].keys);
      assert Registered(s, k);
      var d :| Registers(s, d, k);
      MergeRegisters(s, h, cur, x, d, k);
      MergeRegisters(s, h, cur, x, cur, k);
    }
  }

  lemma MergeSound(s: Index, h: Key -> nat, cur: nat, x: nat)
    requires Sound(s) && Live(s, cur) && Live(s, x) && cur != x
    ensures Sound(Merge(s, h, cur, x))
  {
    var t := Merge(s, h, cur, x);
    AppendKeysMeaning(s.clusters[cur].keys, s.clusters[x].keys);
    assert forall c :: 0 <= c < |s.clusters| && c != cur ==>
      t.clusters[c] == s.clusters[c].(live := t.clusters[c].live);
  }

  lemma MergeKeeps(s: Index, h: Key -> nat, cur: nat, x: nat, pending: seq<Key>)
    requires Held(s, h, cur, pending) && Live(s, cur) && Live(s, x) && cur != x
    ensures Held(Merge(s, h, cur, x), h, cur, pending) && Live(Merge(s, h, cur, x), cur)
  {
    MergeSound(s, h, cur, x);
    MergeApart(s, h, cur, x, pending);
    MergeFindable(s, h, cur, x, pending);
    MergeDeadHidden(s, h, cur, x);
    MergeInherited(s, h, cur, x);
    MergeIds(s, h, cur, x);
  }

  lemma MergeIds(s: Index, h: Key -> nat, cur: nat, x: nat)
    requires Sized(s) && Live(s, cur) && Live(s, x) && cur != x
    ensures forall c :: 0 <= c < |s.clusters| ==> Merge(s, h, cur, x).clusters[c].recid == s.clusters[c].recid
    ensures DistinctIds(s) ==> DistinctIds(Merge(s, h, cur, x))
  {
  }

  // ----- The other steps -----------------------------------------------------

  lemma AddEntryKeeps(s: Index, h: Key -> nat, b: nat, cur: nat, pending: seq<Key>)
    requires Held(s, h, cur, pending) && Live(s, cur) && b < |s.table|
    ensures Held(AddEntry(s, b, cur), h, cur, pending)
  {
    var t := AddEntry(s, b, cur);
    assert forall c, k :: Registers(t, c, k) <==> Registers(s, c, k);
    assert forall i, c :: 0 <= i < |s.table| && c in s.table[i] ==> c in t.table[i];
    assert forall i, c :: 0 <= i < |s.table| && c in t.table[i] ==> c in s.table[i] || c == cur;
    forall c, k | 0 <= c < |t.clusters| && !t.clusters[c].live && k in t.clusters[c].keys
      ensures c !in t.table[Bucket(t, h, k)]
    {
      assert Bucket(t, h, k) == Bucket(s, h, k);
    }
    assert Inherited(t) by {
      forall c, k | 0 <= c < |t.clusters| && k in t.clusters[c].keys
        ensures Registered(t, k)
      {
        assert Registered(s, k);
        var d :| Registers(s, d, k);
        assert Registers(t, d, k);
      }
    }
  }

  lemma JoinKeeps(s: Index, h: Key -> nat, c: nat, rec: Record, pending: seq<Key>)
    requires Held(s, h, c, pending) && c < |s.clusters|
    ensures Held(Join(s, c, rec), h, c, pending)
  {
    var t := Join(s, c, rec);
    assert forall d :: 0 <= d < |s.clusters| ==>
      t.clusters[d].live == s.clusters[d].live && t.clusters[d].keys == s.clusters[d].keys;
    assert forall d, k :: Registers(t, d, k) <==> Registers(s, d, k);
    assert DeadHidden(t, h) by {
      forall d, k | 0 <= d < |t.clusters| && !t.clusters[d].live && k in t.clusters[d].keys
        ensures d !in t.table[Bucket(t, h, k)]
      {
        assert k in s.clusters[d].keys && Bucket(t, h, k) == Bucket(s, h, k);
      }
    }
    assert Inherited(t) by {
      forall d, k | 0 <= d < |t.clusters| && k in t.clusters[d].keys
        ensures Registered(t, k)
      {
        assert k in s.clusters[d].keys && Registered(s, k);
        var e :| Registers(s, e, k);
        assert Registers(t, e, k);
      }
    }
  }

  lemma NewClusterRegisters(s: Index, rec: Record, keys: seq<Key>, c: nat, k: Key)
    requires keys != []
    ensures Registers(NewCluster(s, rec, keys), c, k) <==>
      Registers(s, c, k) || (c == |s.clusters| && k in keys)
  {
    AppendKeysMeaning([], keys);
  }

  lemma NewClusterInherited(s: Index, rec: Record, keys: seq<Key>)
    requires keys != [] && Inherited(s)
    ensures Inherited(NewCluster(s, rec, keys))
  {
    var t, n := NewCluster(s, rec, keys), |s.clusters|;
    forall c, k | 0 <= c < |t.clusters| && k in t.clusters[c].keys
      ensures Registered(t, k)
    {
      NewClusterRegisters(s, rec, keys, c, k);
      if c == n {
        assert Registers(t, n, k);
      } else {
        assert k in s.clusters[c].keys && Registered(s, k);
        var d :| Registers(s, d, k);
        NewClusterRegisters(s, rec, keys, d, k);
      }
    }
  }

  /** The identifier of a fresh cluster is new, because keys are never lost. */
  lemma NewClusterIds(s: Index, rec: Record, keys: seq<Key>)
    requires keys != [] && Sound(s) && Inherited(s) && DistinctIds(s)
    requires !Registered(s, keys[0])
    ensures DistinctIds(NewCluster(s, rec, keys))
  {
    forall c | 0 <= c < |s.clusters| ensures s.clusters[c].recid != keys[0] {
      assert s.clusters[c].recid in s.clusters[c].keys;
      assert Registered(s, s.clusters[c].recid);
    }
  }

  /** A fresh cluster registers all keys of its record before they are looked up. */
  lemma NewClusterKeeps(s: Index, h: Key -> nat, rec: Record, keys: seq<Key>)
    requires Consistent(s, h) && keys != [] && !Registered(s, keys[0])
    ensures Held(NewCluster(s, rec, keys), h, |s.clusters|, keys)
  {
    var t, n := NewCluster(s, rec, keys), |s.clusters|;
    AppendKeysMeaning([], keys);
    NewClusterInherited(s, rec, keys);
    NewClusterIds(s, rec, keys);
    forall c, k ensures Registers(t, c, k) <==> Registers(s, c, k) || (c == n && k in keys) {
      NewClusterRegisters(s, rec, keys, c, k);
    }
    assert forall k :: Bucket(t, h, k) == Bucket(s, h, k);
    assert DeadHidden(t, h);
  }

  lemma HeldFromConsistent(s: Index, h: Key -> nat, cur: nat, pending: seq<Key>)
    requires Consistent(s, h)
    ensures Held(s, h, cur, pending)
  {
  }

  /** Once nobody else registers the first pending key, it is no longer pending. */
  lemma EndPass(s: Index, h: Key -> nat, cur: nat, pending: seq<Key>)
    requires Held(s, h, cur, pending) && pending != []
    requires forall x :: Registers(s, x, pending[0]) ==> x == cur
    requires Registers(s, cur, pending[0]) ==> cur in s.table[Bucket(s, h, pending[0])]
    ensures Held(s, h, cur, pending[1..])
  {
    assert pending == [pending[0]] + pending[1..];
  }

  // ----- The walk over one bucket --------------------------------------------

  /** What the walk over the bucket of `m` amounts to: the other live cluster that
      registers `m`, if there is one, is merged into `cur`. */
  ghost function Absorb(s: Index, h: Key -> nat, cur: nat, m: Key): (t: Index)
    requires Sized(s) && Live(s, cur)
    ensures Sized(t) && |t.clusters| == |s.clusters| && |t.table| == |s.table|
  {
    if exists x :: x != cur && Registers(s, x, m) then
      var x :| x != cur && Registers(s, x, m);
      Merge(s, h, cur, x)
    else s
  }

  /** With nobody else registering `m`, the walk changes nothing. */
  lemma {:induction false} WalkIdle(s: Index, h: Key -> nat, cur: nat, m: Key, i: nat)
    requires Sized(s) && DeadHidden(s, h) && Live(s, cur)
    requires forall x :: Registers(s, x, m) ==> x == cur
    ensures Walk(s, h, cur, m, i).0 == s
    ensures Walk(s, h, cur, m, i).1 ==> Registers(s, cur, m) && cur in s.table[Bucket(s, h, m)]
    ensures !Walk(s, h, cur, m, i).1 ==>
      forall j :: i <= j < |s.table[Bucket(s, h, m)]| ==> m !in s.clusters[s.table[Bucket(s, h, m)][j]].keys
    decreases |s.table[Bucket(s, h, m)]| - i
  {
    var chain := s.table[Bucket(s, h, m)];
    if i < |chain| {
      if m in s.clusters[chain[i]].keys {
        assert chain[i] in chain;
        assert Registers(s, chain[i], m);
      }
      WalkIdle(s, h, cur, m, i + 1);
    }
  }

  lemma {:induction false} WalkMeaning(s: Index, h: Key -> nat, cur: nat, m: Key, i: nat, pending: seq<Key>)
    requires Held(s, h, cur, pending) && Live(s, cur)
    requires i <= |s.table[Bucket(s, h, m)]|
    requires forall x :: Registers(s, x, m) && x != cur ==> x in s.table[Bucket(s, h, m)][i..]
    ensures var (t, hit) := Walk(s, h, cur, m, i);
      && t == Absorb(s, h, cur, m)
      && Held(t, h, cur, pending) && Live(t, cur)
      && (forall x :: Registers(t, x, m) ==> x == cur)
      && (hit ==> Registers(t, cur, m) && cur in t.table[Bucket(t, h, m)])
      && (!hit ==> t == s && forall j :: i <= j < |s.table[Bucket(s, h, m)]| ==>
            m !in s.clusters[s.table[Bucket(s, h, m)][j]].keys)
    decreases |s.table[Bucket(s, h, m)]| - i
  {
    var chain := s.table[Bucket(s, h, m)];
    if forall x :: Registers(s, x, m) ==> x == cur {
      WalkIdle(s, h, cur, m, i);
    } else {
      var x: nat :| x != cur && Registers(s, x, m);
      assert forall y :: y != cur && Registers(s, y, m) ==> y == x;
      assert chain[i..] == [chain[i]] + chain[i + 1..];
      if m in s.clusters[chain[i]].keys && chain[i] != cur {
        assert chain[i] in chain;
        assert Registers(s, chain[i], m);
        MergeKeeps(s, h, cur, x, pending);
        var t := Merge(s, h, cur, x);
        forall y, k ensures Registers(t, y, k) <==> y != x && (Registers(s, y, k) || (y == cur && Registers(s, x, k))) {
          MergeRegisters(s, h, cur, x, y, k);
        }
        RedirectedKey(s, h, s.clusters[x].keys, x, cur, m);
        WalkIdle(t, h, cur, m, i + 1);
      } else {
        WalkMeaning(s, h, cur, m, i + 1, pending);
      }
    }
  }
}
