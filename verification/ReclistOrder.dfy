/** The retrieval position of a cluster, by which a list can be sorted: it is the number of
    records counted when the cluster is made, and listing sets that number. */
module ReclistOrder {
  import opened Wrappers
  import opened ClusterIndex
  import opened ClusterInvariant
  import opened ClusterConservation
  import opened ClusterLinks
  import opened ClusterStale
  import opened Reclist
  import opened ReclistKept
  import O = ClusterOrder

  /** The order of retrieval is the order of creation. */
  ghost predicate InOrder(clusters: seq<RecordCluster>)
  {
    forall i, j :: 0 <= i < j < |clusters| ==> clusters[i].retrievalPosition < clusters[j].retrievalPosition
  }

  /** A further cluster keeps the order exactly when its position is greater than that of
      the last one. */
  lemma OneMoreInOrder(before: seq<RecordCluster>, c: RecordCluster)
    requires InOrder(before)
    ensures InOrder(before + [c]) <==> before == [] || before[|before| - 1].retrievalPosition < c.retrievalPosition
  {
    var after := before + [c];
    assert after[|before|] == c;
    assert forall i :: 0 <= i < |before| ==> after[i] == before[i];
  }

  /** An insertion keeps the order of retrieval the order of creation exactly when it makes
      no cluster, or the number of records is above the last cluster's position. */
  method InsertInOrder(l: Reclist, record: Record, keys: seq<Key>, same: (Record, Record) -> bool, total: int)
      returns (total': int)
    requires l.Valid() && Consistent(l.View(), l.hash) && keys != [] && InOrder(l.created)
    modifies l`numRecords, l`sortedList, l`sortedPtr, l`created, l.hashtable
    modifies l.created`records, l.created`mergeKeys, l.created`tf, l.created`explain
    ensures l.Valid() && Consistent(l.View(), l.hash)
    ensures InOrder(l.created) <==>
      || l.created == old(l.created) || old(l.created) == []
      || old(l.created)[|old(l.created)| - 1].retrievalPosition < old(l.numRecords)
  {
    hide Insert, Consistent, LiveSet, InOrder;
    ghost var before, n := l.created, l.numRecords;
    var c;
    c, total' := l.InsertRecord(record, keys, same, total);
    if |l.created| == |before| {
      assert l.created == before;
    } else {
      assert l.created == before + [l.created[|before|]];
      OneMoreInOrder(before, l.created[|before|]);
    }
  }

  /** While nothing is listed, clusters are numbered in the order of their creation. */
  method InsertAll(size: nat, veclen: nat, hash: Key -> nat, same: (Record, Record) -> bool, inputs: seq<Input>)
      returns (l: Reclist)
    requires size > 0 && forall i :: 0 <= i < |inputs| ==> inputs[i].keys != []
    ensures l.Valid() && l.numRecords == |l.created|
    ensures forall i :: 0 <= i < |l.created| ==> l.created[i].retrievalPosition == i
  {
    hide Insert, Consistent, LiveSet;
    l := new Reclist(size, veclen, hash);
    var i, total := 0, 0;
    while i < |inputs|
      invariant 0 <= i <= |inputs| && fresh(l) && fresh(l.hashtable) && fresh(l.created)
      invariant l.Valid() && Consistent(l.View(), l.hash) && l.numRecords == |l.created|
      invariant forall j :: 0 <= j < |l.created| ==> l.created[j].retrievalPosition == j
    {
      var c;
      c, total := l.InsertRecord(inputs[i].rec, inputs[i].keys, same, total);
      i := i + 1;
    }
  }

  /** A cluster made after a lazy listing has the position of the very first one. */
  method TiedPositions(size: nat, veclen: nat, hash: Key -> nat, same: (Record, Record) -> bool,
                       parms: seq<O.SortParm>)
      returns (l: Reclist)
    requires size > 0
    ensures l.Valid() && |l.created| == 2 && l.created[0].explain && l.created[1].explain
    ensures l.created[0].retrievalPosition == l.created[1].retrievalPosition
  {
    hide Insert, Consistent, Tidy, One, Two, Empty, LiveSet, AllLive;
    l := new Reclist(size, veclen, hash);
    FirstRecord(size, veclen, hash, same);
    var c0, n0 := l.InsertRecord(FIRST, ["a"], same, 0);
    OneMeans(l.View(), hash);
    OneLive(l.View(), hash);
    KnownLive(l, l.created);
    ghost var sorted := ListAll(l, parms);
    assert l.created[0] in sorted;
    ghost var list := l.Limit(_ => true, true);
    SecondRecord(l.View(), hash, same);
    var c1, n1 := l.InsertRecord(SECOND, ["b"], same, n0);
    TwoMeans(l.View(), hash);
    TwoLive(l.View(), hash);
    KnownLive(l, l.created);
  }

  lemma OneLive(s: Index, h: Key -> nat)
    requires One(s, h)
    ensures Live(s, 0)
  {
    assert Registers(s, 0, "a");
  }

  lemma TwoLive(s: Index, h: Key -> nat)
    requires Two(s, h)
    ensures Live(s, 0) && Live(s, 1)
  {
    assert Registers(s, 0, "a") && Registers(s, 1, "b");
  }
}
