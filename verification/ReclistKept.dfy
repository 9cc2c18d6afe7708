/** Showing one record lists the clusters lazily: the list of the last sort is kept if it is
    still there.  Only a new cluster drops it, so a list can be kept across a merge. */
module ReclistKept {
  import opened Wrappers
  import opened ClusterIndex
  import opened ClusterInvariant
  import opened ClusterInsert
  import opened ClusterConservation
  import opened ClusterLinks
  import opened ClusterTable
  import opened ClusterStale
  import opened Reclist
  import opened ReclistListing
  import O = ClusterOrder

  // ----- When a kept list goes stale -------------------------------------------

  /** After an accepted insertion some listed cluster is merged away exactly when one was
      before, or registers one of the record's keys but not the first. */
  lemma ListedDies(s: Index, h: Key -> nat, same: (Record, Record) -> bool, rec: Record, keys: seq<Key>,
                   listed: set<nat>)
    requires Consistent(s, h) && keys != [] && forall x :: x in listed ==> x < |s.clusters|
    requires Insert(s, h, same, rec, keys).Accepted?
    ensures var t := Insert(s, h, same, rec, keys).state;
      (exists x :: x in listed && !Live(t, x))
      <==> (exists x :: x in listed && !Live(s, x)) || (exists x :: x in listed && Absorbed(s, keys, x))
  {
    hide Insert;
    var Accepted(t, c) := Insert(s, h, same, rec, keys);
    InsertMeaning(s, h, same, rec, keys);
    AbsorbedBefore(s, h, same, rec, keys);
    forall x | x in listed ensures !Live(t, x) <==> !Live(s, x) || Touched(s, c, keys, x) {
      if x != c { PlacedTouches(s, rec, keys, c, x); }
    }
  }

  /** The clusters listed are known and live. */
  ghost predicate AllLive(l: Reclist, xs: seq<RecordCluster>)
    reads l`created, xs`explain
  {
    forall i :: 0 <= i < |xs| ==> l.Known(xs[i]) && xs[i].explain
  }

  ghost function IdSet(xs: seq<RecordCluster>): set<nat>
  {
    set i | 0 <= i < |xs| :: xs[i].id
  }

  lemma KnownLive(l: Reclist, xs: seq<RecordCluster>)
    requires l.Valid() && forall i :: 0 <= i < |xs| ==> l.Known(xs[i])
    ensures forall i :: 0 <= i < |xs| ==> (Live(l.View(), xs[i].id) <==> xs[i].explain)
  {
    forall i | 0 <= i < |xs| ensures Live(l.View(), xs[i].id) <==> xs[i].explain {
      assert l.View().clusters[xs[i].id] == xs[i].View();
    }
  }

  ghost predicate AllListed(l: Reclist, xs: seq<RecordCluster>)
    reads l`created
  {
    forall i :: 0 <= i < |xs| ==> l.Known(xs[i])
  }

  ghost predicate SomeMergedAway(xs: seq<RecordCluster>)
    reads xs`explain
  {
    exists i :: 0 <= i < |xs| && !xs[i].explain
  }

  ghost predicate SomeAbsorbed(s: Index, keys: seq<Key>, xs: seq<RecordCluster>)
    requires keys != []
  {
    exists i :: 0 <= i < |xs| && Absorbed(s, keys, xs[i].id)
  }

  /** An insertion beside a list: afterwards the list holds a merged-away cluster exactly
      when it did before, or the record was accepted and a listed cluster registers one of
      its keys, but not the first. */
  method InsertBeside(l: Reclist, record: Record, keys: seq<Key>, same: (Record, Record) -> bool,
                      total: int, ghost xs: seq<RecordCluster>)
      returns (cluster: RecordCluster?)
    requires l.Valid() && Consistent(l.View(), l.hash) && keys != [] && AllListed(l, xs)
    modifies l`numRecords, l`sortedList, l`sortedPtr, l`created, l.hashtable
    modifies l.created`records, l.created`mergeKeys, l.created`tf, l.created`explain
    ensures l.Valid() && Consistent(l.View(), l.hash)
    ensures match Insert(old(l.View()), l.hash, same, record, keys)
      case Duplicate => cluster == null && l.View() == old(l.View())
      case Accepted(t, c) => l.Number(cluster) == Some(c) && l.View() == t
    ensures old(l.created) <= l.created
      && (forall i :: |old(l.created)| <= i < |l.created| ==> fresh(l.created[i]))
    ensures l.ListDropped(old(l.created), old(l.sortedList), old(l.sortedPtr))
    ensures SomeMergedAway(xs) <==>
      old(SomeMergedAway(xs)) || (cluster != null && SomeAbsorbed(old(l.View()), keys, xs))
  {
    hide Insert, Consistent;
    ghost var s := l.View();
    KnownLive(l, xs);
    var n;
    cluster, n := l.InsertRecord(record, keys, same, total);
    KnownLive(l, xs);
    if cluster != null { ListedByIndex(s, l.hash, same, record, keys, xs); }
  }

  /** An insertion followed by the lazy listing of `show_single_start`.  If the record
      starts a cluster the list is made anew; if it is rejected or joins a cluster the list
      is kept, stale or not. */
  method ShowAfterInsert(l: Reclist, record: Record, keys: seq<Key>, same: (Record, Record) -> bool,
                         total: int, pass: RecordCluster -> bool, ghost xs: seq<RecordCluster>)
      returns (cluster: RecordCluster?, ghost list: seq<RecordCluster>)
    requires l.Valid() && Consistent(l.View(), l.hash) && keys != []
    requires xs != [] && l.IsList(l.sortedList, xs) && AllListed(l, xs)
    modifies l`numRecords, l`sortedList, l`sortedPtr, l`created, l.hashtable
    modifies l.created`records, l.created`mergeKeys, l.created`tf, l.created`explain, l.created`sortedNext
    ensures l.Valid() && Consistent(l.View(), l.hash) && l.IsList(l.sortedList, list)
    ensures match Insert(old(l.View()), l.hash, same, record, keys)
      case Duplicate => cluster == null && l.View() == old(l.View())
      case Accepted(t, c) => l.Number(cluster) == Some(c) && l.View() == t
    ensures |l.created| > |old(l.created)| ==> list == Listing(l.hashtable[..], pass)
    ensures |l.created| == |old(l.created)| ==>
      && list == xs && l.numRecords == 0
      && (SomeMergedAway(list) <==>
            old(SomeMergedAway(xs)) || (cluster != null && SomeAbsorbed(old(l.View()), keys, xs)))
  {
    hide Insert, Consistent, AllListed, SomeMergedAway, SomeAbsorbed, Listing;
    cluster := InsertBeside(l, record, keys, same, total, xs);
    list := l.Limit(pass, true);
    if |l.created| == |old(l.created)| { list := xs; }
  }

  ghost predicate SomeDead(s: Index, xs: seq<RecordCluster>)
  {
    exists i :: 0 <= i < |xs| && !Live(s, xs[i].id)
  }

  lemma ListedByIndex(s: Index, h: Key -> nat, same: (Record, Record) -> bool, rec: Record, keys: seq<Key>,
                      xs: seq<RecordCluster>)
    requires Consistent(s, h) && keys != [] && forall i :: 0 <= i < |xs| ==> xs[i].id < |s.clusters|
    requires Insert(s, h, same, rec, keys).Accepted?
    ensures var t := Insert(s, h, same, rec, keys).state;
      SomeDead(t, xs) <==> SomeDead(s, xs) || SomeAbsorbed(s, keys, xs)
  {
    hide Insert;
    var Accepted(t, c) := Insert(s, h, same, rec, keys);
    ListedDies(s, h, same, rec, keys, IdSet(xs));
    if i :| 0 <= i < |xs| && !Live(t, xs[i].id) { assert xs[i].id in IdSet(xs); }
    if i :| 0 <= i < |xs| && !Live(s, xs[i].id) { assert xs[i].id in IdSet(xs); }
    if i :| 0 <= i < |xs| && Absorbed(s, keys, xs[i].id) { assert xs[i].id in IdSet(xs); }
  }

  // ----- A run that shows a merged-away cluster --------------------------------

  const FIRST := Record(0, 0, 1)
  const SECOND := Record(1, 1, 1)
  const BRIDGE := Record(2, 2, 1)
  const BRIDGE_KEYS: seq<Key> := ["a", "b"]

  /** One cluster that registers `a` and holds the first record. */
  ghost predicate One(s: Index, h: Key -> nat)
  {
    && Consistent(s, h) && Tidy(s, h) && |s.clusters| == 1
    && (forall x, k :: Registers(s, x, k) <==> x == 0 && k == "a")
    && (forall x, r :: Holds(s, x, r) <==> x == 0 && r == FIRST)
  }

  /** A second one that registers `b`. */
  ghost predicate Two(s: Index, h: Key -> nat)
  {
    && Consistent(s, h) && Tidy(s, h) && |s.clusters| == 2
    && (forall x, k :: Registers(s, x, k) <==> (x == 0 && k == "a") || (x == 1 && k == "b"))
    && (forall x, r :: Holds(s, x, r) <==> (x == 0 && r == FIRST) || (x == 1 && r == SECOND))
  }

  lemma FirstRecord(size: nat, veclen: nat, h: Key -> nat, same: (Record, Record) -> bool)
    requires size > 0
    ensures var o := Insert(Empty(size, veclen), h, same, FIRST, ["a"]);
      o.Accepted? && o.cluster == 0 && One(o.state, h)
  {
    hide Insert;
    var s, keys: seq<Key> := Empty(size, veclen), ["a"];
    EmptyGood(size, veclen, h);
    InsertRejects(s, h, same, FIRST, keys);
    InsertMeaning(s, h, same, FIRST, keys);
    InsertTidy(s, h, same, FIRST, keys);
    var t := Insert(s, h, same, FIRST, keys).state;
    forall x, k ensures Registers(t, x, k) <==> x == 0 && k == "a" {
      RegistersBefore(s, h, same, FIRST, keys, x, k);
    }
    forall x, r ensures Holds(t, x, r) <==> x == 0 && r == FIRST {
      HoldsBefore(s, h, same, FIRST, keys, x, r);
    }
  }

  lemma SecondRecord(s: Index, h: Key -> nat, same: (Record, Record) -> bool)
    requires One(s, h)
    ensures var o := Insert(s, h, same, SECOND, ["b"]);
      o.Accepted? && o.cluster == 1 && Two(o.state, h)
  {
    hide Insert;
    var keys: seq<Key> := ["b"];
    InsertRejects(s, h, same, SECOND, keys);
    InsertMeaning(s, h, same, SECOND, keys);
    InsertTidy(s, h, same, SECOND, keys);
    var t := Insert(s, h, same, SECOND, keys).state;
    forall x, k ensures Registers(t, x, k) <==> (x == 0 && k == "a") || (x == 1 && k == "b") {
      RegistersBefore(s, h, same, SECOND, keys, x, k);
    }
    forall x, r ensures Holds(t, x, r) <==> (x == 0 && r == FIRST) || (x == 1 && r == SECOND) {
      HoldsBefore(s, h, same, SECOND, keys, x, r);
    }
  }

  /** The third record has only known keys, so the table stays tidy; it merges the second
      cluster into the first. */
  lemma BridgeRecord(s: Index, h: Key -> nat, same: (Record, Record) -> bool)
    requires Two(s, h)
    ensures var o := Insert(s, h, same, BRIDGE, BRIDGE_KEYS);
      && AllKnown(s, BRIDGE_KEYS) && o.Accepted? && o.cluster == 0 && |o.state.clusters| == 2
      && Absorbed(s, BRIDGE_KEYS, 1) && Tidy(o.state, h)
  {
    hide Insert;
    assert BRIDGE_KEYS[0] == "a" && BRIDGE_KEYS[1] == "b";
    assert Registers(s, 0, "a") && Registers(s, 1, "b");
    InsertRejects(s, h, same, BRIDGE, BRIDGE_KEYS);
    forall r | r in s.clusters[0].records ensures r.client != BRIDGE.client {
      assert Holds(s, 0, r);
    }
    InsertMeaning(s, h, same, BRIDGE, BRIDGE_KEYS);
    InsertTidy(s, h, same, BRIDGE, BRIDGE_KEYS);
  }

  /** From a tidy table, a listing without limit that is then sorted has exactly the live
      clusters. */
  method ListAll(l: Reclist, parms: seq<O.SortParm>) returns (ghost sorted: seq<RecordCluster>)
    requires l.Valid() && Consistent(l.View(), l.hash) && Tidy(l.View(), l.hash)
    modifies l`numRecords, l`sortedList, l`sortedPtr, l.created`sortedNext, l.created`sortParms
    ensures l.Valid() && l.View() == old(l.View()) && l.IsList(l.sortedList, sorted)
    ensures AllLive(l, sorted) && forall c :: c in l.created && c.explain ==> c in sorted
  {
    hide Consistent, Tidy, Listing, NoTwice, Entries, O.Sortable, O.Sorted, Reclist.IsList;
    var all: RecordCluster -> bool := _ => true;
    ghost var list := l.Limit(all, false);
    ListingReady(l, all, list);
    sorted := l.Sort(parms, list);
    StillLive(l, list, sorted);
  }

  /** What a listing from a tidy table gives the sort, and what it has. */
  lemma ListingReady(l: Reclist, pass: RecordCluster -> bool, list: seq<RecordCluster>)
    requires l.Valid() && Consistent(l.View(), l.hash) && Tidy(l.View(), l.hash)
    requires (forall c :: l.Known(c) ==> pass(c)) && list == Listing(l.hashtable[..], pass)
    ensures NoTwice(list) && (forall c :: c in list ==> c in l.created) && O.Sortable(Entries(list))
    ensures AllLive(l, list) && forall c :: c in l.created && c.explain ==> c in list
  {
    hide Consistent, Tidy, Listing, O.Sortable;
    ListingMeaning(l, pass);
    ListingSortable(l, list);
    ListingLive(l, pass);
    assert forall i :: 0 <= i < |list| ==> list[i] in list;
  }

  lemma StillLive(l: Reclist, list: seq<RecordCluster>, sorted: seq<RecordCluster>)
    requires NoTwice(list) && multiset(sorted) == multiset(list) && AllLive(l, list)
    ensures AllLive(l, sorted) && forall c :: c in sorted <==> c in list
  {
    PermutedNoTwice(list, sorted);
    forall i | 0 <= i < |sorted| ensures l.Known(sorted[i]) && sorted[i].explain {
      assert sorted[i] in sorted && sorted[i] in list;
    }
  }

  lemma ListingLive(l: Reclist, pass: RecordCluster -> bool)
    requires l.Valid() && Consistent(l.View(), l.hash) && Tidy(l.View(), l.hash)
    requires forall c :: l.Known(c) ==> pass(c)
    ensures forall c :: c in Listing(l.hashtable[..], pass) ==> l.Known(c) && c.explain
    ensures forall c :: c in l.created && c.explain ==> c in Listing(l.hashtable[..], pass)
  {
    hide Consistent, Tidy;
    var list := Listing(l.hashtable[..], pass);
    ListingMeaning(l, pass);
    forall c | c in list ensures l.Known(c) && c.explain {
      assert l.Known(c);
      TidyListing(l, pass, c);
    }
    forall c | c in l.created && c.explain ensures c in list {
      var i :| 0 <= i < |l.created| && l.created[i] == c;
      TidyListing(l, pass, c);
    }
  }

  /** A list with one cluster for each of two keys, listed and sorted. */
  method TwoListed(size: nat, veclen: nat, hash: Key -> nat, same: (Record, Record) -> bool,
                   parms: seq<O.SortParm>)
      returns (l: Reclist, ghost sorted: seq<RecordCluster>)
    requires size > 0
    ensures fresh(l) && fresh(l.hashtable) && fresh(l.created) && l.Valid() && l.hash == hash
    ensures Two(l.View(), hash) && l.IsList(l.sortedList, sorted) && AllLive(l, sorted)
    ensures |l.created| == 2 && l.created[1] in sorted
  {
    hide Insert, Consistent, Tidy, One, Two, Empty, LiveSet, AllLive, Reclist.IsList;
    l := new Reclist(size, veclen, hash);
    FirstRecord(size, veclen, hash, same);
    var c0, n0 := l.InsertRecord(FIRST, ["a"], same, 0);
    OneMeans(l.View(), hash);
    SecondRecord(l.View(), hash, same);
    var c1, n1 := l.InsertRecord(SECOND, ["b"], same, n0);
    TwoMeans(l.View(), hash);
    KnownLive(l, l.created);
    sorted := ListAll(l, parms);
  }

  lemma OneMeans(s: Index, h: Key -> nat)
    requires One(s, h)
    ensures Consistent(s, h) && Tidy(s, h) && |s.clusters| == 1
  {
  }

  lemma TwoMeans(s: Index, h: Key -> nat)
    requires Two(s, h)
    ensures Consistent(s, h) && Tidy(s, h) && |s.clusters| == 2 && Live(s, 1)
  {
    assert Registers(s, 1, "b");
  }

  /** Two records with a key each, a sorted listing, a record with both keys, and the
      listing for one record: it shows a merged-away cluster, though the table is tidy. */
  method ShowsMergedAway(size: nat, veclen: nat, hash: Key -> nat, same: (Record, Record) -> bool,
                         parms: seq<O.SortParm>)
      returns (l: Reclist, ghost list: seq<RecordCluster>)
    requires size > 0
    ensures l.Valid() && Consistent(l.View(), l.hash) && Tidy(l.View(), l.hash)
    ensures l.IsList(l.sortedList, list) && SomeMergedAway(list)
  {
    hide Insert, Consistent, Tidy, Two;
    ghost var sorted;
    l, sorted := TwoListed(size, veclen, hash, same, parms);
    ghost var s := l.View();
    TwoMeans(s, hash);
    BridgeRecord(s, hash, same);
    ghost var i :| 0 <= i < |sorted| && sorted[i] == l.created[1];
    var c;
    c, list := ShowAfterInsert(l, BRIDGE, BRIDGE_KEYS, same, 2, _ => true, sorted);
    assert Absorbed(s, BRIDGE_KEYS, sorted[i].id);
  }
}
