/** What ranking needs of a list made anew: `relevance_prepare_read` writes to the
    explanation buffers of every cluster listed, and a merged-away cluster has none. */
module ReclistPrepare {
  import opened Wrappers
  import opened ClusterIndex
  import opened ClusterInvariant
  import opened ClusterInsert
  import opened ClusterLinks
  import opened ClusterStale
  import ClusterTable
  import opened Reclist
  import opened ReclistListing

  ghost predicate AllExplained(xs: seq<RecordCluster>)
    reads xs`explain
  {
    forall c :: c in xs ==> c.explain
  }

  /** A list made anew has the buffers of all its clusters exactly when no merged-away
      cluster that is reachable passes the limit. */
  lemma ExplainedExactly(l: Reclist, pass: RecordCluster -> bool)
    requires l.Valid()
    ensures AllExplained(Listing(l.hashtable[..], pass)) <==>
      !exists c :: c in l.created && Reachable(l.View(), c.id) && !Live(l.View(), c.id) && pass(c)
  {
    hide Listing;
    var list := Listing(l.hashtable[..], pass);
    ListingMeaning(l, pass);
    forall c | c in l.created ensures l.Known(c) && (Live(l.View(), c.id) <==> c.explain) {
      CreatedLive(l, c);
    }
    if c :| c in l.created && Reachable(l.View(), c.id) && !Live(l.View(), c.id) && pass(c) {
      assert c in list;
    }
    forall c | c in list ensures l.Known(c) && c in l.created && Reachable(l.View(), c.id) && pass(c) {
      assert l.Known(c);
    }
  }

  lemma CreatedLive(l: Reclist, c: RecordCluster)
    requires l.Valid() && c in l.created
    ensures l.Known(c) && (Live(l.View(), c.id) <==> c.explain)
  {
    var i :| 0 <= i < |l.created| && l.created[i] == c;
    assert l.View().clusters[c.id] == c.View();
  }

  /** Without a limit it has them exactly when the table leads to live clusters only. */
  lemma UnlimitedExplained(l: Reclist, pass: RecordCluster -> bool)
    requires l.Valid() && forall c :: c in l.created ==> pass(c)
    ensures AllExplained(Listing(l.hashtable[..], pass)) <==> OnlyLiveReachable(l.View())
  {
    hide Listing;
    ExplainedExactly(l, pass);
    if x: nat :| Reachable(l.View(), x) && !Live(l.View(), x) {
      ReachableCreated(l, x);
      assert l.created[x] in l.created && Reachable(l.View(), l.created[x].id);
    }
  }

  lemma ReachableCreated(l: Reclist, x: nat)
    requires l.Valid() && Reachable(l.View(), x)
    ensures x < |l.created| && l.created[x].id == x
  {
    var b: nat :| ClusterTable.Leads(l.View(), b, x);
    var i :| 0 <= i < |l.View().table[b]| && l.View().table[b][i] == x;
    assert l.Known(l.hashtable[b][i]);
  }

  // ----- A run that lists a cluster without its buffers --------------------------

  method InsertStep(l: Reclist, i: Input, same: (Record, Record) -> bool, total: int, ghost hist: History)
      returns (total': int)
    requires l.Valid() && Consistent(l.View(), l.hash) && i.keys != []
    modifies l`numRecords, l`sortedList, l`sortedPtr, l`created, l.hashtable
    modifies l.created`records, l.created`mergeKeys, l.created`tf, l.created`explain
    ensures l.Valid() && Consistent(l.View(), l.hash)
    ensures l.View() == Step(old(l.View()), hist, l.hash, same, i).0
    ensures old(l.created) <= l.created
      && (forall i :: |old(l.created)| <= i < |l.created| ==> fresh(l.created[i]))
  {
    hide Insert, Consistent;
    var c;
    c, total' := l.InsertRecord(i.rec, i.keys, same, total);
  }

  /** Three records, the second with a key that it does not register, and a listing
      without limit: whenever the buckets of the two keys differ it has a cluster that is
      merged away. */
  method ListsMergedAway(size: nat, veclen: nat, hash: Key -> nat, same: (Record, Record) -> bool)
      returns (l: Reclist, ghost list: seq<RecordCluster>)
    requires size > 0 && hash("a") % size != hash("b") % size
    ensures l.Valid() && l.IsList(l.sortedList, list) && l.numRecords == |list| && !AllExplained(list)
  {
    hide Insert, Consistent, Step, LooseInputs, OnlyLiveReachable, Listing;
    l := new Reclist(size, veclen, hash);
    StaleRun(size, veclen, hash, same);
    InputsHaveKeys();
    ghost var hist1 := Step(l.View(), map[], hash, same, LooseInputs()[0]).1;
    var n := InsertStep(l, LooseInputs()[0], same, 0, map[]);
    ghost var hist2 := Step(l.View(), hist1, hash, same, LooseInputs()[1]).1;
    n := InsertStep(l, LooseInputs()[1], same, n, hist1);
    n := InsertStep(l, STALE_INPUT, same, n, hist2);
    assert !OnlyLiveReachable(l.View());
    var all: RecordCluster -> bool := _ => true;
    list := l.Limit(all, false);
    UnlimitedExplained(l, all);
  }

  lemma InputsHaveKeys()
    ensures |LooseInputs()| == 3 && forall i :: 0 <= i < 3 ==> LooseInputs()[i].keys != []
  {
  }
}
