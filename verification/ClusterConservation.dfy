/** What an insertion neither loses nor invents: records, term frequencies and the
    number of live clusters. */
module ClusterConservation {
  import opened ClusterIndex
  import opened ClusterInvariant
  import opened ClusterInsert

  ghost function LiveSet(s: Index): set<nat>
  {
    set c: nat | c < |s.clusters| && s.clusters[c].live
  }

  /** How often `r` stands in the record list of `c`, if `c` is live. */
  ghost function LiveCount(c: Cluster, r: Record): nat
  {
    if c.live then multiset(c.records)[r] else 0
  }

  ghost function LiveTf(c: Cluster, i: nat): int
  {
    if c.live && i < |c.tf| then c.tf[i] else 0
  }

  /** How often `r` stands in the record lists of all live clusters. */
  ghost function Occurrences(cs: seq<Cluster>, r: Record): nat
  {
    if cs == [] then 0 else Occurrences(cs[..|cs| - 1], r) + LiveCount(cs[|cs| - 1], r)
  }

  /** Component `i` of the sum of the term-frequency vectors of the live clusters. */
  ghost function TfTotal(cs: seq<Cluster>, i: nat): int
  {
    if cs == [] then 0 else TfTotal(cs[..|cs| - 1], i) + LiveTf(cs[|cs| - 1], i)
  }

  lemma {:induction false} UpdateTotals(cs: seq<Cluster>, c: nat, x: Cluster, r: Record, i: nat)
    requires c < |cs|
    ensures Occurrences(cs[c := x], r) == Occurrences(cs, r) - LiveCount(cs[c], r) + LiveCount(x, r)
    ensures TfTotal(cs[c := x], i) == TfTotal(cs, i) - LiveTf(cs[c], i) + LiveTf(x, i)
  {
    var n := |cs| - 1;
    var ds := cs[c := x];
    if c == n {
      assert ds[..n] == cs[..n];
    } else {
      assert ds[..n] == cs[..n][c := x];
      UpdateTotals(cs[..n], c, x, r, i);
    }
  }

  lemma MergeTotals(s: Index, h: Key -> nat, dst: nat, src: nat, r: Record, i: nat)
    requires Sized(s) && Live(s, dst) && Live(s, src) && dst != src
    ensures var t := Merge(s, h, dst, src);
      && Occurrences(t.clusters, r) == Occurrences(s.clusters, r)
      && TfTotal(t.clusters, i) == TfTotal(s.clusters, i)
  {
    var t := Merge(s, h, dst, src);
    var a := s.clusters[dst := t.clusters[dst]];
    UpdateTotals(s.clusters, dst, t.clusters[dst], r, i);
    UpdateTotals(a, src, t.clusters[src], r, i);
    assert t.clusters == a[src := t.clusters[src]];
  }

  lemma AbsorbTotals(s: Index, h: Key -> nat, cur: nat, m: Key, r: Record, i: nat)
    requires Sized(s) && Live(s, cur)
    ensures Occurrences(Absorb(s, h, cur, m).clusters, r) == Occurrences(s.clusters, r)
    ensures TfTotal(Absorb(s, h, cur, m).clusters, i) == TfTotal(s.clusters, i)
  {
    if exists x :: x != cur && Registers(s, x, m) {
      var x: nat :| x != cur && Registers(s, x, m) && Absorb(s, h, cur, m) == Merge(s, h, cur, x);
      MergeTotals(s, h, cur, x, r, i);
    }
  }

  lemma {:induction false} PassesTotals(s: Index, h: Key -> nat, cur: nat, keys: seq<Key>, r: Record, i: nat)
    requires Held(s, h, cur, keys) && Live(s, cur)
    ensures Occurrences(Passes(s, h, cur, keys).clusters, r) == Occurrences(s.clusters, r)
    ensures TfTotal(Passes(s, h, cur, keys).clusters, i) == TfTotal(s.clusters, i)
    decreases |keys|
  {
    if keys != [] {
      KeyPassMeaning(s, h, cur, keys);
      AbsorbTotals(s, h, cur, keys[0], r, i);
      PassesTotals(KeyPass(s, h, cur, keys[0]), h, cur, keys[1..], r, i);
    }
  }

  lemma PlacedTotals(s: Index, rec: Record, keys: seq<Key>, c: nat, r: Record, i: nat)
    requires keys != [] && (Live(s, c) || c == |s.clusters|)
    ensures Occurrences(Placed(s, rec, keys, c).clusters, r)
         == Occurrences(s.clusters, r) + (if r == rec then 1 else 0)
    ensures TfTotal(Placed(s, rec, keys, c).clusters, i) == TfTotal(s.clusters, i)
  {
    var p := Placed(s, rec, keys, c);
    if c == |s.clusters| {
      assert p.clusters[..c] == s.clusters;
    } else {
      UpdateTotals(s.clusters, c, p.clusters[c], r, i);
    }
  }

  /** An accepted insertion adds its record, once, to the records of the live
      clusters, leaves every component of the term-frequency total as it was, and
      takes exactly the touched clusters from the live ones. */
  lemma InsertConserves(s: Index, h: Key -> nat, same: (Record, Record) -> bool, rec: Record, keys: seq<Key>,
                        r: Record, i: nat)
    requires Consistent(s, h) && keys != []
    requires Insert(s, h, same, rec, keys).Accepted?
    ensures var Accepted(t, c) := Insert(s, h, same, rec, keys);
      && Occurrences(t.clusters, r) == Occurrences(s.clusters, r) + (if r == rec then 1 else 0)
      && TfTotal(t.clusters, i) == TfTotal(s.clusters, i)
      && LiveSet(t) == LiveSet(s) + {c} - (set x | x in LiveSet(s) && Touched(s, c, keys, x))
  {
    var e := InsertStarts(s, h, same, rec, keys);
    var Accepted(t, c) := Insert(s, h, same, rec, keys);
    PlacedTotals(s, rec, keys, c, r, i);
    PassesTotals(e, h, c, keys[1..], r, i);
    InsertMeaning(s, h, same, rec, keys);
    PlacedLive(s, rec, keys, c);
  }

  lemma PlacedLive(s: Index, rec: Record, keys: seq<Key>, c: nat)
    requires keys != [] && (Live(s, c) || c == |s.clusters|)
    ensures LiveSet(Placed(s, rec, keys, c)) == LiveSet(s) + {c}
    ensures forall x :: Touched(Placed(s, rec, keys, c), c, keys, x) <==> Touched(s, c, keys, x)
  {
    var p := Placed(s, rec, keys, c);
    forall x: nat, k | x != c ensures Registers(p, x, k) <==> Registers(s, x, k) {
      if c == |s.clusters| { NewClusterRegisters(s, rec, keys, x, k); }
    }
  }

  lemma MergeLive(s: Index, h: Key -> nat, dst: nat, src: nat)
    requires Sized(s) && Live(s, dst) && Live(s, src) && dst != src
    ensures |LiveSet(Merge(s, h, dst, src))| == |LiveSet(s)| - 1
  {
    assert LiveSet(Merge(s, h, dst, src)) == LiveSet(s) - {src};
  }

  lemma NewLive(s: Index, rec: Record, keys: seq<Key>)
    requires keys != []
    ensures |LiveSet(NewCluster(s, rec, keys))| == |LiveSet(s)| + 1
  {
    assert LiveSet(NewCluster(s, rec, keys)) == LiveSet(s) + {|s.clusters|};
  }
}
