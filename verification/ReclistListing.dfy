/** What the list of clusters to show has to do with the clusters. */
module ReclistListing {
  import opened Wrappers
  import opened ClusterIndex
  import opened ClusterInvariant
  import opened ClusterStale
  import opened ClusterTable
  import opened Reclist
  import O = ClusterOrder

  /** The list holds, once each, exactly the clusters that the table leads to and
      that pass the limit, in however many buckets they are. */
  lemma ListingMeaning(l: Reclist, pass: RecordCluster -> bool)
    requires l.Valid()
    ensures NoTwice(Listing(l.hashtable[..], pass))
    ensures forall c :: c in Listing(l.hashtable[..], pass) <==>
      l.Known(c) && Reachable(l.View(), c.id) && pass(c)
  {
    var table := l.hashtable[..];
    PickedMeaning(Flat(table), pass);
    FlatMeaning(table);
    forall c ensures c in Flat(table) <==> l.Known(c) && Reachable(l.View(), c.id) {
      if c in Flat(table) {
        var b :| 0 <= b < |table| && c in table[b];
        var i :| 0 <= i < |table[b]| && table[b][i] == c;
        assert l.Known(l.hashtable[b][i]);
        assert l.View().table[b][i] == c.id;
        assert Leads(l.View(), b, c.id);
      }
      if l.Known(c) && Reachable(l.View(), c.id) {
        var b: nat :| Leads(l.View(), b, c.id);
        var i :| 0 <= i < |table[b]| && l.View().table[b][i] == c.id;
        assert l.Known(l.hashtable[b][i]);
        assert table[b][i] == c;
      }
    }
  }

  /** From a tidy table the list shows exactly the live clusters that pass. */
  lemma TidyListing(l: Reclist, pass: RecordCluster -> bool, c: RecordCluster)
    requires l.Valid() && Consistent(l.View(), l.hash) && Tidy(l.View(), l.hash)
    requires l.Known(c)
    ensures c in Listing(l.hashtable[..], pass) <==> c.explain && pass(c)
  {
    ListingMeaning(l, pass);
    TidyReachesLive(l.View(), l.hash);
    assert l.View().clusters[c.id] == c.View();
    if c.explain { LiveIsReachable(l.View(), l.hash, c.id); }
  }

  /** Whatever the list shows can be sorted: identifiers differ and every cluster has
      a record. */
  lemma ListingSortable(l: Reclist, xs: seq<RecordCluster>)
    requires l.Valid() && Consistent(l.View(), l.hash)
    requires NoTwice(xs) && forall c :: c in xs ==> l.Known(c)
    ensures O.Sortable(Entries(xs))
  {
    var s := l.View();
    forall i | 0 <= i < |xs|
      ensures l.Known(xs[i]) && s.clusters[xs[i].id] == xs[i].View() && xs[i].records != []
    {
      assert xs[i] in xs && l.Known(xs[i]);
      assert s.clusters[xs[i].id].records != [];
    }
    forall i, j | 0 <= i < j < |xs| ensures xs[i].recid != xs[j].recid {
      assert l.Known(xs[i]) && l.Known(xs[j]) && xs[i].id != xs[j].id;
      assert s.clusters[xs[i].id].recid == xs[i].recid && s.clusters[xs[j].id].recid == xs[j].recid;
    }
  }
}
