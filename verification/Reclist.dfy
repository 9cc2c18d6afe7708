/** The list of record clusters: a hash table whose entries point to clusters that
    are changed in place. */
module Reclist {
  import opened Wrappers
  import opened ClusterIndex
  import opened ClusterInvariant
  import opened ClusterInsert
  import opened ClusterConservation
  import opened ClusterScan
  import O = ClusterOrder

  class RecordCluster {
    /** The number of the cluster in order of creation. */
    ghost const id: nat
    const recid: Key
    const retrievalPosition: int
    var records: seq<Record>
    var mergeKeys: seq<Key>
    var tf: seq<int>
    /** Whether the explanation buffers are still allocated. */
    var explain: bool
    var relevanceScore: int
    var sortkeys: seq<O.SortKey>
    var sortParms: seq<O.SortParm>
    var sortedNext: RecordCluster?

    constructor (ghost id: nat, record: Record, keys: seq<Key>, vecLen: nat, position: int)
      requires keys != []
      ensures this.id == id && View() == Cluster([record], keys, keys[0], seq(vecLen, _ => 0), true)
      ensures retrievalPosition == position && relevanceScore == 0 && sortkeys == []
    {
      this.id := id;
      records := [record];
      mergeKeys := keys;
      recid := keys[0];
      retrievalPosition := position;
      tf := seq(vecLen, _ => 0);
      explain := true;
      relevanceScore := 0;
      sortkeys := [];
      sortParms := [];
      sortedNext := null;
    }

    ghost function View(): Cluster
      reads this
    {
      Cluster(records, mergeKeys, recid, tf, explain)
    }
  }

  /** What the comparator reads of a cluster. */
  function EntryOf(c: RecordCluster): (r: O.Entry)
    reads c
  {
    O.Entry(c.recid, c.relevanceScore, c.retrievalPosition,
            Positions(c.records), c.sortkeys)
  }

  function Positions(records: seq<Record>): (r: seq<int>)
  {
    seq(|records|, i requires 0 <= i < |records| => records[i].position)
  }

  lemma MergedKeysAndCounts(d: Cluster, x: Cluster)
    requires |d.tf| == |x.tf|
    ensures d.keys <= AppendKeys(d.keys, x.keys)
      && forall k :: k in AppendKeys(d.keys, x.keys) <==> k in d.keys || k in x.keys
    ensures forall i :: 0 <= i < |d.tf| ==> AddVectors(d.tf, x.tf)[i] == d.tf[i] + x.tf[i]
  {
    AppendKeysMeaning(d.keys, x.keys);
  }

  // ----- What a sorted list shows --------------------------------------------

  /** By the sort parameter alone, `a` may stand before `b`. */
  ghost predicate Ahead(p: O.SortParm, a: RecordCluster, b: RecordCluster)
    reads a`relevanceScore, a`records, a`sortkeys, b`relevanceScore, b`records, b`sortkeys
  {
    var x := if p.offset < |a.sortkeys| then a.sortkeys[p.offset] else O.Missing;
    var y := if p.offset < |b.sortkeys| then b.sortkeys[p.offset] else O.Missing;
    match p.kind
    case Relevance =>
      if p.increasing then a.relevanceScore <= b.relevanceScore else a.relevanceScore >= b.relevanceScore
    case Retrieval =>
      if p.increasing then a.retrievalPosition <= b.retrievalPosition
      else a.retrievalPosition >= b.retrievalPosition
    case Generic | SkipArticle =>
      var s, t := if x.Text? then x.text else "", if y.Text? then y.text else "";
      if p.increasing then O.TextUpTo(s, t) else O.TextUpTo(t, s)
    case Year | Date =>
      if x.Range? && y.Range? then (if p.increasing then x.min <= y.min else x.max >= y.max)
      else x.Range? || !y.Range?
    case Position =>
      a.records != [] && b.records != [] ==>
        exists r :: r in a.records && forall q :: q in b.records ==> r.position <= q.position
    case Float =>
      if x.Number? && y.Number? then (if p.increasing then x.value <= y.value else x.value >= y.value)
      else if p.increasing then !x.Number? else !y.Number?
  }

  /** The later parameters decide where the earlier ones leave it open, and in the end the
      identifiers do. */
  ghost predicate ShownBefore(parms: seq<O.SortParm>, a: RecordCluster, b: RecordCluster)
    reads a`relevanceScore, a`records, a`sortkeys, b`relevanceScore, b`records, b`sortkeys
  {
    if parms == [] then O.TextUpTo(a.recid, b.recid)
    else Ahead(parms[0], a, b) && (Ahead(parms[0], b, a) ==> ShownBefore(parms[1..], a, b))
  }

  /** Positions are counted from one wherever they are asked for. */
  ghost predicate Counted(parms: seq<O.SortParm>, c: RecordCluster)
    reads c`records
  {
    (exists p :: p in parms && p.kind.Position?) ==> forall r :: r in c.records ==> r.position >= 1
  }

  ghost predicate AllCounted(parms: seq<O.SortParm>, xs: seq<RecordCluster>)
    reads xs`records
  {
    forall c :: c in xs ==> Counted(parms, c)
  }

  lemma AheadByText(p: O.SortParm, a: RecordCluster, b: RecordCluster)
    requires O.IsText(p)
    ensures O.CompareOn(p, EntryOf(a), EntryOf(b)) <= 0 <==> Ahead(p, a, b)
  {
    hide O.TextUpTo, O.Strcmp;
    var x, y := O.TextOf(O.KeyAt(EntryOf(a), p.offset)), O.TextOf(O.KeyAt(EntryOf(b), p.offset));
    O.StrcmpMeaning(x, y);
    O.StrcmpMeaning(y, x);
    O.StrcmpSigns(x, y);
  }

  lemma AheadByPosition(p: O.SortParm, a: RecordCluster, b: RecordCluster)
    requires p.kind.Position? && Counted([p], a) && Counted([p], b)
    ensures O.CompareOn(p, EntryOf(a), EntryOf(b)) <= 0 <==> Ahead(p, a, b)
  {
    hide O.LeastPosition, Positions;
    assert p in [p];
    PositionsOf(a.records);
    PositionsOf(b.records);
    if a.records != [] && b.records != [] {
      var x := LeastRecord(a.records);
      var y := LeastRecord(b.records);
    }
  }

  lemma LeastRecord(records: seq<Record>) returns (r: Record)
    requires records != [] && forall q :: q in records ==> q.position >= 1
    ensures r in records && r.position == O.LeastPosition(Positions(records), 0)
    ensures forall q :: q in records ==> r.position <= q.position
  {
    hide O.LeastPosition, Positions;
    PositionsOf(records);
    O.LeastPositionIsLeast(Positions(records), 0);
    r :| r in records && r.position == O.LeastPosition(Positions(records), 0);
    forall q | q in records ensures r.position <= q.position {
      assert q.position in Positions(records);
    }
  }

  lemma PositionsOf(records: seq<Record>)
    ensures forall x :: x in Positions(records) <==> exists r :: r in records && r.position == x
    ensures Positions(records) == [] <==> records == []
  {
    forall r | r in records ensures r.position in Positions(records) {
      var i :| 0 <= i < |records| && records[i] == r;
      assert Positions(records)[i] == r.position;
    }
    forall x | x in Positions(records) ensures exists r :: r in records && r.position == x {
      var i :| 0 <= i < |records| && Positions(records)[i] == x;
      assert records[i] in records;
    }
  }

  lemma AheadIsUpTo(p: O.SortParm, a: RecordCluster, b: RecordCluster)
    requires Counted([p], a) && Counted([p], b)
    ensures O.CompareOn(p, EntryOf(a), EntryOf(b)) <= 0 <==> Ahead(p, a, b)
  {
    hide O.TextUpTo, O.Strcmp, O.LeastPosition;
    if O.IsText(p) {
      AheadByText(p, a, b);
    } else if p.kind.Position? {
      AheadByPosition(p, a, b);
    }
  }

  /** What the comparison says is what is shown. */
  lemma {:induction false} ShownIsUpTo(parms: seq<O.SortParm>, a: RecordCluster, b: RecordCluster)
    requires Counted(parms, a) && Counted(parms, b) && a.records != [] && b.records != []
    ensures O.Compare(parms, EntryOf(a), EntryOf(b)) <= 0 <==> ShownBefore(parms, a, b)
  {
    hide Ahead, O.CompareOn, O.TextUpTo;
    if parms == [] {
      O.StrcmpMeaning(a.recid, b.recid);
    } else {
      var p := parms[0];
      assert forall q :: q in [p] || q in parms[1..] ==> q in parms;
      AheadIsUpTo(p, a, b);
      AheadIsUpTo(p, b, a);
      O.CompareOnLaws(p, EntryOf(a), EntryOf(b), EntryOf(a));
      O.CompareOnLaws(p, EntryOf(b), EntryOf(a), EntryOf(b));
      ShownIsUpTo(parms[1..], a, b);
    }
  }

  /** Where no parameter decides, the identifiers ascend. */
  lemma {:induction false} TiesByIdentifier(parms: seq<O.SortParm>, a: RecordCluster, b: RecordCluster)
    requires ShownBefore(parms, a, b) && forall p :: p in parms ==> Ahead(p, b, a)
    ensures O.TextUpTo(a.recid, b.recid)
  {
    hide Ahead, O.TextUpTo;
    if parms != [] { TiesByIdentifier(parms[1..], a, b); }
  }

  /** Each cluster of a sorted list may stand before all that follow it. */
  ghost predicate Shown(parms: seq<O.SortParm>, xs: seq<RecordCluster>)
    reads xs`relevanceScore, xs`records, xs`sortkeys
  {
    forall i, j :: 0 <= i < j < |xs| ==>
      && ShownBefore(parms, xs[i], xs[j])
      && (parms != [] ==> Ahead(parms[0], xs[i], xs[j]))
      && ((forall p :: p in parms ==> Ahead(p, xs[j], xs[i])) ==> O.TextUpTo(xs[i].recid, xs[j].recid))
  }

  lemma SortedIsShown(parms: seq<O.SortParm>, xs: seq<RecordCluster>)
    requires O.Sortable(Entries(xs)) && O.Sorted(parms, Entries(xs))
    requires AllCounted(parms, xs)
    ensures Shown(parms, xs)
  {
    hide Ahead, O.TextUpTo, O.Compare, ShownBefore, Counted;
    forall i, j | 0 <= i < j < |xs| ensures ShownBefore(parms, xs[i], xs[j]) {
      assert O.Compare(parms, Entries(xs)[i], Entries(xs)[j]) <= 0;
      assert xs[i] in xs && xs[j] in xs;
      assert Entries(xs)[i].positions != [] && Entries(xs)[j].positions != [];
      ShownIsUpTo(parms, xs[i], xs[j]);
    }
    forall i, j | 0 <= i < j < |xs|
      ensures parms != [] ==> Ahead(parms[0], xs[i], xs[j])
      ensures (forall p :: p in parms ==> Ahead(p, xs[j], xs[i])) ==> O.TextUpTo(xs[i].recid, xs[j].recid)
    {
      ShownHead(parms, xs[i], xs[j]);
      if forall p :: p in parms ==> Ahead(p, xs[j], xs[i]) { TiesByIdentifier(parms, xs[i], xs[j]); }
    }
  }

  lemma ShownHead(parms: seq<O.SortParm>, a: RecordCluster, b: RecordCluster)
    requires ShownBefore(parms, a, b)
    ensures parms != [] ==> Ahead(parms[0], a, b)
  {
  }

  ghost function Ids(chain: seq<RecordCluster>): (r: seq<nat>)
  {
    seq(|chain|, i requires 0 <= i < |chain| => chain[i].id)
  }

  /** `append_merge_keys`. */
  method AppendMergeKeys(p: seq<Key>, a: seq<Key>) returns (r: seq<Key>)
    ensures r == AppendKeys(p, a)
  {
    r := p;
    var i := 0;
    while i < |a|
      invariant 0 <= i <= |a|
      invariant AppendKeys(r, a[i..]) == AppendKeys(p, a)
    {
      var j := 0;
      while j < |r| && r[j] != a[i]
        invariant 0 <= j <= |r|
        invariant a[i] !in r[..j]
      {
        j := j + 1;
      }
      assert a[i..][0] == a[i] && a[i..][1..] == a[i + 1..];
      if j == |r| {
        assert a[i] !in r by { assert r[..j] == r; }
        r := r + [a[i]];
      }
      i := i + 1;
    }
  }

  class Reclist {
    const hash: Key -> nat
    const vecLen: nat
    const hashtable: array<seq<RecordCluster>>
    var numRecords: int
    var sortedList: RecordCluster?
    var sortedPtr: RecordCluster?
    /** Every cluster ever created, in order. */
    ghost var created: seq<RecordCluster>

    ghost predicate Known(c: RecordCluster)
      reads this`created
    {
      c.id < |created| && created[c.id] == c
    }

    ghost predicate Valid()
      reads this, hashtable, created
    {
      && hashtable.Length > 0
      && (forall i :: 0 <= i < |created| ==> created[i].id == i && |created[i].tf| == vecLen)
      && (forall b, i :: 0 <= b < hashtable.Length && 0 <= i < |hashtable[b]| ==> Known(hashtable[b][i]))
    }

    ghost function View(): (s: Index)
      reads this, hashtable, created
      ensures |s.clusters| == |created| && |s.table| == hashtable.Length
      ensures Valid() ==> Sized(s)
    {
      Index(seq(|created|, i requires 0 <= i < |created| reads this, created => created[i].View()),
            seq(hashtable.Length, b requires 0 <= b < hashtable.Length reads hashtable => Ids(hashtable[b])),
            vecLen)
    }

    constructor (size: nat, vecLen: nat, hash: Key -> nat)
      requires size > 0
      ensures Valid() && fresh(hashtable) && created == [] && this.hash == hash
      ensures View() == Empty(size, vecLen) && Consistent(View(), hash)
      ensures numRecords == 0 && sortedList == null && sortedPtr == null
    {
      this.hash := hash;
      this.vecLen := vecLen;
      hashtable := new seq<RecordCluster>[size](_ => []);
      numRecords := 0;
      sortedList, sortedPtr := null, null;
      created := [];
    }

    // ----- Parts of the insertion --------------------------------------------

    /** The inner loop of `merge_cluster`: one bucket. */
    method RedirectBucket(b: nat, src: RecordCluster, dst: RecordCluster)
      requires Valid() && b < hashtable.Length && Known(src) && Known(dst)
      modifies hashtable
      ensures Valid()
      ensures Ids(hashtable[b]) == Redirect(old(Ids(hashtable[b])), src.id, dst.id)
      ensures forall i :: 0 <= i < hashtable.Length && i != b ==> hashtable[i] == old(hashtable[i])
    {
      ghost var chain := hashtable[b];
      var j := 0;
      while j < |hashtable[b]|
        invariant 0 <= j <= |hashtable[b]| == |chain|
        invariant forall i :: 0 <= i < hashtable.Length && i != b ==> hashtable[i] == old(hashtable[i])
        invariant forall i :: 0 <= i < j ==> hashtable[b][i] == if chain[i] == src then dst else chain[i]
        invariant forall i :: j <= i < |chain| ==> hashtable[b][i] == chain[i]
      {
        if hashtable[b][j] == src {
          hashtable[b] := hashtable[b][j := dst];
        }
        j := j + 1;
      }
      assert forall i :: 0 <= i < |chain| ==> Known(chain[i]);
    }

    /** `relevance_mergerec`. */
    method MergeRelevance(dst: RecordCluster, src: RecordCluster)
      requires dst != src && |dst.tf| == |src.tf| == vecLen
      modifies dst`tf
      ensures dst.tf == AddVectors(old(dst.tf), src.tf)
    {
      var i := 0;
      while i < vecLen
        invariant 0 <= i <= vecLen == |dst.tf|
        invariant forall j :: 0 <= j < i ==> dst.tf[j] == old(dst.tf)[j] + src.tf[j]
        invariant forall j :: i <= j < vecLen ==> dst.tf[j] == old(dst.tf)[j]
      {
        dst.tf := dst.tf[i := dst.tf[i] + src.tf[i]];
        i := i + 1;
      }
    }

    /** The outer loop of `merge_cluster`: the buckets of all keys of `src`. */
    method RedirectKeys(keys: seq<Key>, src: RecordCluster, dst: RecordCluster)
      requires Valid() && Known(dst) && Known(src) && dst != src
      modifies hashtable
      ensures Valid()
      ensures View().table == Redirected(old(View()), hash, keys, src.id, dst.id)
    {
      hide Redirected, Redirect;
      ghost var s := View();
      var i := 0;
      RedirectedNone(s, hash, src.id, dst.id);
      assert keys[..0] == [];
      while i < |keys|
        invariant Valid() && 0 <= i <= |keys|
        invariant View().table == Redirected(s, hash, keys[..i], src.id, dst.id)
      {
        var k := keys[i];
        var b := hash(k) % hashtable.Length;
        RedirectedSnoc(s, hash, keys[..i], k, src.id, dst.id);
        assert keys[..i + 1] == keys[..i] + [k];
        ghost var r := View().table;
        RedirectBucket(b, src, dst);
        assert View().table == r[b := Redirect(r[b], src.id, dst.id)];
        i := i + 1;
      }
      assert keys[..i] == keys;
    }

    /** `merge_cluster`. */
    method MergeCluster(dst: RecordCluster, src: RecordCluster)
      requires Valid() && Known(dst) && Known(src) && dst != src
      modifies hashtable, dst`records, dst`mergeKeys, dst`tf, src`explain
      ensures Valid()
      ensures View() == Merge(old(View()), hash, dst.id, src.id)
      ensures dst.records == old(dst.records) + old(src.records) && !src.explain
      ensures old(dst.mergeKeys) <= dst.mergeKeys
        && forall k :: k in dst.mergeKeys <==> k in old(dst.mergeKeys) || k in old(src.mergeKeys)
      ensures forall i :: 0 <= i < vecLen ==> dst.tf[i] == old(dst.tf[i]) + old(src.tf[i])
      ensures dst.sortedNext == old(dst.sortedNext) && src.sortedNext == old(src.sortedNext)
    {
      hide AddVectors, AppendKeys, Redirected;
      ghost var s, t := View(), Merge(View(), hash, dst.id, src.id);
      dst.records := dst.records + src.records;
      RedirectedTable(View(), s, hash, src.mergeKeys, src.id, dst.id);
      RedirectKeys(src.mergeKeys, src, dst);
      assert View().clusters == s.clusters[dst.id := dst.View()];
      ghost var d, x := dst.View(), src.View();
      MergeRest(dst, src);
      assert View().clusters == t.clusters;
      assert View().clusters[dst.id] == dst.View() && View().clusters[src.id] == src.View();
      MergedKeysAndCounts(d, x);
    }

    /** What `merge_cluster` merges after the index: term frequencies and keys. */
    method MergeRest(dst: RecordCluster, src: RecordCluster)
      requires Valid() && Known(dst) && Known(src) && dst != src
      modifies dst`mergeKeys, dst`tf, src`explain
      ensures Valid() && View().table == old(View()).table
      ensures var was, d, x := old(View()).clusters, old(dst.View()), old(src.View());
        View().clusters == was[dst.id := d.(keys := AppendKeys(d.keys, x.keys), tf := AddVectors(d.tf, x.tf))]
                              [src.id := x.(live := false)]
      ensures dst.sortedNext == old(dst.sortedNext) && src.sortedNext == old(src.sortedNext)
    {
      hide AddVectors, AppendKeys;
      ghost var cs := View().clusters;
      MergeRelevance(dst, src);
      src.explain := false;
      dst.mergeKeys := AppendMergeKeys(dst.mergeKeys, src.mergeKeys);
      forall c | 0 <= c < |created| && c != dst.id && c != src.id ensures View().clusters[c] == cs[c] {
        assert created[c] != dst && created[c] != src;
      }
      assert View().table == old(View()).table;
    }

    /** A record joins the end of the record list of a cluster. */
    method JoinCluster(c: RecordCluster, record: Record)
      requires Valid() && Known(c)
      modifies c`records
      ensures Valid()
      ensures View() == Join(old(View()), c.id, record)
      ensures c.sortedNext == old(c.sortedNext)
    {
      ghost var t := Join(View(), c.id, record);
      c.records := c.records + [record];
      forall d | 0 <= d < |created| ensures created[d].View() == t.clusters[d] {
        assert old(View()).clusters[d] == old(created[d].View());
      }
      assert View().clusters == t.clusters;
      assert View().table == old(View()).table;
    }

    /** `new_cluster`. */
    method CreateCluster(record: Record, keys: seq<Key>) returns (c: RecordCluster)
      requires Valid() && keys != []
      modifies this`numRecords, this`sortedList, this`sortedPtr, this`created
      ensures Valid() && fresh(c)
      ensures created == old(created) + [c] && Known(c)
      ensures View() == NewCluster(old(View()), record, keys)
      ensures numRecords == old(numRecords) + 1 && c.retrievalPosition == old(numRecords)
      ensures c.records == [record] && c.recid == keys[0] && c.explain
      ensures c.relevanceScore == 0 && c.sortkeys == []
      ensures forall k :: k in c.mergeKeys <==> k in keys
      ensures sortedList == null && sortedPtr == null
    {
      ghost var t := NewCluster(View(), record, keys);
      var own := AppendMergeKeys([], keys);
      AppendKeysHead(keys);
      AppendKeysMeaning([], keys);
      c := new RecordCluster(|created|, record, own, vecLen, numRecords);
      created := created + [c];
      numRecords := numRecords + 1;
      sortedList := null;
      sortedPtr := null;
      assert View().clusters == t.clusters;
      assert View().table == t.table;
    }

    /** A new entry at the end of a bucket. */
    method AppendEntry(b: nat, c: RecordCluster)
      requires Valid() && b < hashtable.Length && Known(c)
      modifies hashtable
      ensures Valid()
      ensures View() == AddEntry(old(View()), b, c.id)
    {
      ghost var t := AddEntry(View(), b, c.id);
      hashtable[b] := hashtable[b] + [c];
      assert Ids(hashtable[b]) == Ids(old(hashtable[b])) + [c.id];
      assert View().clusters == t.clusters;
      assert View().table == t.table;
    }

    // ----- The insertion -----------------------------------------------------

    /** A new cluster drops the sorted list; otherwise the list is as it was. */
    ghost predicate ListDropped(before: seq<RecordCluster>, list: RecordCluster?, ptr: RecordCluster?)
      reads this`created, this`sortedList, this`sortedPtr
    {
      if |created| == |before| then sortedList == list && sortedPtr == ptr
      else sortedList == null && sortedPtr == null
    }

    /** At most one cluster is new, and its retrieval position is `n`. */
    ghost predicate NumberedFrom(before: seq<RecordCluster>, n: int)
      reads this`created
    {
      |created| <= |before| + 1
      && forall i :: |before| <= i < |created| ==> created[i].retrievalPosition == n
    }

    /** The loop over the records of the cluster found. */
    method HasRecord(c: RecordCluster, record: Record, same: (Record, Record) -> bool) returns (found: bool)
      ensures found == exists r :: r in c.records && r.client == record.client && same(record, r)
    {
      var i := 0;
      while i < |c.records|
        invariant 0 <= i <= |c.records|
        invariant forall j :: 0 <= j < i ==> !(c.records[j].client == record.client && same(record, c.records[j]))
      {
        if c.records[i].client == record.client && same(record, c.records[i]) {
          return true;
        }
        i := i + 1;
      }
      return false;
    }

    ghost function Number(c: RecordCluster?): (r: Option<nat>)
    {
      if c == null then None else Some(c.id)
    }

    /** A matching entry: join its cluster, or merge it into the cluster at hand. */
    method MatchEntry(e: RecordCluster, record: Record, same: (Record, Record) -> bool,
                      held: RecordCluster?, total: int)
        returns (cluster: RecordCluster?, total': int)
      requires Valid() && Known(e) && e.explain && (held != null ==> Known(held))
      modifies hashtable, created`records, created`mergeKeys, created`tf, created`explain
      ensures Valid()
      ensures match Matched(old(View()), hash, same, record, Number(held), e.id)
        case Duplicate => cluster == null && View() == old(View()) && total' == total
        case Accepted(t, c) =>
          && Number(cluster) == Some(c) && Known(cluster) && View() == t
          && total' == total - (if held != null && held != e then 1 else 0)
    {
      total' := total;
      if held == null {
        var repeated := HasRecord(e, record, same);
        assert View().clusters[e.id] == e.View();
        if repeated {
          return null, total;
        }
        JoinCluster(e, record);
        cluster := e;
      } else {
        cluster := held;
        if held != e {
          assert e.explain;
          MergeCluster(held, e);
          total' := total' - 1;
        }
      }
    }

    /** One entry of a bucket: the loop over the keys of its cluster.  A cluster has
        no key twice, so at most one key matches. */
    method VisitEntry(e: RecordCluster, k: Key, record: Record, same: (Record, Record) -> bool,
                      held: RecordCluster?, total: int)
        returns (hit: bool, cluster: RecordCluster?, total': int)
      requires Valid() && Known(e) && (held != null ==> Known(held)) && NoTwice(e.mergeKeys)
      requires k in e.mergeKeys ==> e.explain
      modifies hashtable, created`records, created`mergeKeys, created`tf, created`explain
      ensures Valid()
      ensures hit == (k in old(e.mergeKeys))
      ensures !hit ==> View() == old(View()) && cluster == held && total' == total
      ensures hit ==>
        match Matched(old(View()), hash, same, record, Number(held), e.id)
        case Duplicate => cluster == null && View() == old(View()) && total' == total
        case Accepted(t, c) =>
          && Number(cluster) == Some(c) && Known(cluster) && View() == t
          && total' == total - (if held != null && held != e then 1 else 0)
    {
      var mkr := e.mergeKeys;
      hit, cluster, total' := false, held, total;
      var j := 0;
      while j < |mkr| && k != mkr[j]
        modifies {}
        invariant 0 <= j <= |mkr|
        invariant k !in mkr[..j]
      {
        j := j + 1;
      }
      if j < |mkr| {
        hit := true;
        cluster, total' := MatchEntry(e, record, same, held, total);
      } else {
        assert mkr[..j] == mkr;
      }
    }

    /** One round of the walk over the bucket of `k`. */
    method VisitAt(k: Key, p: nat, record: Record, same: (Record, Record) -> bool,
                   held: RecordCluster?, hit: bool, total: int)
        returns (rejected: bool, hit': bool, cluster: RecordCluster?, total': int)
      requires Valid() && (held != null ==> Known(held))
      requires p < |hashtable[hash(k) % hashtable.Length]|
      requires ScanSafe(View(), hash, same, record, Number(held), k, p)
      modifies hashtable, created`records, created`mergeKeys, created`tf, created`explain
      ensures Valid() && (cluster != null ==> Known(cluster))
      ensures |hashtable[hash(k) % hashtable.Length]| == |old(hashtable[hash(k) % hashtable.Length])|
      ensures cluster == null ==> held == null && View() == old(View())
      ensures rejected ==>
        && cluster == null
        && Scan(old(View()), hash, same, record, Number(held), k, p, hit, total).Rejected?
      ensures !rejected ==>
        && ScanSafe(View(), hash, same, record, Number(cluster), k, p + 1)
        && Scan(View(), hash, same, record, Number(cluster), k, p + 1, hit', total')
           == Scan(old(View()), hash, same, record, Number(held), k, p, hit, total)
    {
      ghost var v := View();
      var b := hash(k) % hashtable.Length;
      var e := hashtable[b][p];
      assert v.table[b][p] == e.id && v.clusters[e.id] == e.View();
      var found, next, count := VisitEntry(e, k, record, same, held, total);
      assert |View().table[b]| == |v.table[b]|;
      rejected, hit', cluster, total' := found && next == null, hit || found, next, count;
    }

    /** The walk over the bucket of one key. */
    method WalkBucket(k: Key, record: Record, same: (Record, Record) -> bool, held: RecordCluster?, total: int)
        returns (rejected: bool, hit: bool, cluster: RecordCluster?, total': int)
      requires Valid() && (held != null ==> Known(held))
      requires ScanSafe(View(), hash, same, record, Number(held), k, 0)
      modifies hashtable, created`records, created`mergeKeys, created`tf, created`explain
      ensures Valid()
      ensures match Scan(old(View()), hash, same, record, Number(held), k, 0, false, total)
        case Rejected => rejected && View() == old(View())
        case Scanned(t, c, found, n) =>
          && !rejected && View() == t && Number(cluster) == c && hit == found && total' == n
          && (cluster != null ==> Known(cluster))
    {
      ghost var s := View();
      ghost var goal := Scan(s, hash, same, record, Number(held), k, 0, false, total);
      rejected, hit, cluster, total' := false, false, held, total;
      var p := 0;
      while p < |hashtable[hash(k) % hashtable.Length]|
        invariant Valid() && 0 <= p <= |hashtable[hash(k) % hashtable.Length]| && !rejected
        invariant cluster != null ==> Known(cluster)
        invariant cluster == null ==> View() == s
        invariant ScanSafe(View(), hash, same, record, Number(cluster), k, p)
        invariant Scan(View(), hash, same, record, Number(cluster), k, p, hit, total') == goal
        decreases |hashtable[hash(k) % hashtable.Length]| - p
      {
        rejected, hit, cluster, total' := VisitAt(k, p, record, same, cluster, hit, total');
        if rejected {
          return;
        }
        p := p + 1;
      }
    }

    /** The end of the loop body: a new cluster if the record has none yet, and an
        entry in the bucket if the key was not found. */
    method SettleKey(k: Key, record: Record, keys: seq<Key>, held: RecordCluster?, hit: bool, total: int)
        returns (cluster: RecordCluster, total': int)
      requires Valid() && keys != [] && (held != null ==> Known(held)) && (held == null ==> !hit)
      modifies this`numRecords, this`sortedList, this`sortedPtr, this`created, hashtable
      ensures Valid() && Known(cluster)
      ensures ListDropped(old(created), old(sortedList), old(sortedPtr))
      ensures NumberedFrom(old(created), old(numRecords)) && (held != null ==> created == old(created))
      ensures numRecords - |created| == old(numRecords) - |old(created)|
      ensures old(created) <= created && (forall i :: |old(created)| <= i < |created| ==> fresh(created[i]))
      ensures held != null ==>
        && cluster == held && total' == total
        && View() == if hit then old(View()) else AddEntry(old(View()), Bucket(old(View()), hash, k), held.id)
      ensures held == null ==>
        && cluster.id == |old(created)| && total' == total + 1
        && View() == AddEntry(NewCluster(old(View()), record, keys), Bucket(old(View()), hash, k), cluster.id)
    {
      total' := total;
      if held == null {
        total' := total' + 1;
        cluster := CreateCluster(record, keys);
      } else {
        cluster := held;
      }
      if !hit {
        AppendEntry(hash(k) % hashtable.Length, cluster);
      }
    }

    /** One key of the record: the walk over its bucket, a new cluster if the record
        has none yet, and an entry in the bucket if the key was not found. */
    method InsertKey(k: Key, record: Record, keys: seq<Key>, same: (Record, Record) -> bool,
                     held: RecordCluster?, total: int, ghost pending: seq<Key>)
        returns (cluster: RecordCluster?, total': int)
      requires Valid() && keys != []
      requires held == null ==> Consistent(View(), hash) && k == keys[0]
      requires held != null ==>
        Known(held) && Live(View(), held.id) && Held(View(), hash, held.id, pending)
      modifies this`numRecords, this`sortedList, this`sortedPtr, this`created, hashtable,
        created`records, created`mergeKeys, created`tf, created`explain
      ensures Valid()
      ensures ListDropped(old(created), old(sortedList), old(sortedPtr))
      ensures NumberedFrom(old(created), old(numRecords)) && (held != null ==> created == old(created))
      ensures numRecords - |View().clusters| == old(numRecords) - |old(View()).clusters|
      ensures old(created) <= created && (forall i :: |old(created)| <= i < |created| ==> fresh(created[i]))
      ensures held != null ==>
        && cluster == held && Known(held)
        && View() == KeyPass(old(View()), hash, held.id, k)
        && total' == total + |LiveSet(View())| - |LiveSet(old(View()))|
      ensures held == null ==>
        match FirstPass(old(View()), hash, same, record, keys)
        case Duplicate => cluster == null && View() == old(View()) && total' == total
        case Accepted(e, c) =>
          && View() == e && Number(cluster) == Some(c) && Known(cluster)
          && total' == total + |LiveSet(View())| - |LiveSet(old(View()))|
    {
      ghost var s := View();
      if held == null {
        FirstKeyScan(s, hash, same, record, keys, total);
      } else {
        LaterKeyScan(s, hash, same, record, held.id, pending, k, total);
      }
      var rejected, hit, c, n := WalkBucket(k, record, same, held, total);
      if rejected {
        return null, total;
      }
      cluster, total' := SettleKey(k, record, keys, c, hit, n);
    }

    /** One round of the loop of `reclist_insert`. */
    method InsertAt(i: nat, record: Record, keys: seq<Key>, same: (Record, Record) -> bool,
                    held: RecordCluster?, total: int, ghost s: Index)
        returns (cluster: RecordCluster?, total': int)
      requires Valid() && i < |keys| && Sized(s)
      requires held != null ==> Known(held)
      requires Underway(s, View(), hash, same, record, keys, i, Number(held))
      modifies this`numRecords, this`sortedList, this`sortedPtr, this`created, hashtable,
        created`records, created`mergeKeys, created`tf, created`explain
      ensures Valid()
      ensures ListDropped(old(created), old(sortedList), old(sortedPtr))
      ensures NumberedFrom(old(created), old(numRecords)) && (held != null ==> created == old(created))
      ensures numRecords - |View().clusters| == old(numRecords) - |old(View()).clusters|
      ensures old(created) <= created && (forall i :: |old(created)| <= i < |created| ==> fresh(created[i]))
      ensures total' == total + |LiveSet(View())| - |LiveSet(old(View()))|
      ensures cluster == null ==> View() == s && Insert(s, hash, same, record, keys).Duplicate?
      ensures cluster != null ==>
        Known(cluster) && Underway(s, View(), hash, same, record, keys, i + 1, Some(cluster.id))
    {
      ghost var v := View();
      if held == null {
        if FirstPass(s, hash, same, record, keys).Accepted? {
          UnderwayFirst(s, hash, same, record, keys);
        }
      } else {
        UnderwayNext(s, v, hash, same, record, keys, i, held.id);
      }
      cluster, total' := InsertKey(keys[i], record, keys, same, held, total, keys[i..]);
    }

    /** Which insertions are rejected, in terms of the clusters themselves. */
    lemma DuplicateExactly(record: Record, keys: seq<Key>, same: (Record, Record) -> bool)
      requires Valid() && Consistent(View(), hash) && keys != []
      ensures Insert(View(), hash, same, record, keys).Duplicate? <==>
        exists c, r :: c in created && c.explain && keys[0] in c.mergeKeys
          && r in c.records && r.client == record.client && same(record, r)
    {
      hide Insert, Consistent;
      var s := View();
      InsertRejects(s, hash, same, record, keys);
      if c: nat, r :| Registers(s, c, keys[0]) && r in s.clusters[c].records && r.client == record.client
                      && same(record, r) {
        assert created[c] in created && created[c].View() == s.clusters[c];
      }
      if c, r :| c in created && c.explain && keys[0] in c.mergeKeys
                 && r in c.records && r.client == record.client && same(record, r) {
        var i :| 0 <= i < |created| && created[i] == c;
        assert Registers(s, i, keys[0]) && s.clusters[i] == c.View();
      }
    }

    /** `reclist_insert`: the record's cluster, or null if the cluster of its first key
        already has a record of that client which `same` takes for it.  `total` follows the number of live clusters. */
    method InsertRecord(record: Record, keys: seq<Key>, same: (Record, Record) -> bool, total: int)
        returns (cluster: RecordCluster?, total': int)
      requires Valid() && Consistent(View(), hash) && keys != []
      modifies this`numRecords, this`sortedList, this`sortedPtr, this`created, hashtable,
        created`records, created`mergeKeys, created`tf, created`explain
      ensures Valid() && Consistent(View(), hash)
      ensures match Insert(old(View()), hash, same, record, keys)
        case Duplicate => cluster == null && View() == old(View())
        case Accepted(t, c) => Number(cluster) == Some(c) && Known(cluster) && View() == t
      ensures cluster == null <==>
        exists c, r :: c in old(created) && old(c.explain) && keys[0] in old(c.mergeKeys)
          && r in old(c.records) && r.client == record.client && same(record, r)
      ensures total' == total + |LiveSet(View())| - |LiveSet(old(View()))|
      ensures ListDropped(old(created), old(sortedList), old(sortedPtr))
      ensures NumberedFrom(old(created), old(numRecords))
      ensures numRecords - |View().clusters| == old(numRecords) - |old(View()).clusters|
      ensures old(created) <= created && (forall i :: |old(created)| <= i < |created| ==> fresh(created[i]))
    {
      hide Underway, Insert, LiveSet, Consistent, Sized;
      ghost var s := View();
      DuplicateExactly(record, keys, same);
      UnderwayStart(s, hash, same, record, keys);
      cluster, total' := null, total;
      var i := 0;
      while i < |keys|
        invariant Valid() && 0 <= i <= |keys|
        invariant numRecords - |View().clusters| == old(numRecords) - |s.clusters|
        invariant total' == total + |LiveSet(View())| - |LiveSet(s)|
        invariant old(created) <= created && (forall i :: |old(created)| <= i < |created| ==> fresh(created[i]))
        invariant i > 0 ==> cluster != null
        invariant cluster != null ==> Known(cluster)
        invariant Underway(s, View(), hash, same, record, keys, i, Number(cluster))
        invariant ListDropped(old(created), old(sortedList), old(sortedPtr))
        invariant NumberedFrom(old(created), old(numRecords))
        invariant i == 0 ==> created == old(created) && numRecords == old(numRecords)
      {
        cluster, total' := InsertAt(i, record, keys, same, cluster, total', s);
        if cluster == null {
          return;
        }
        i := i + 1;
      }
      UnderwayDone(s, View(), hash, same, record, keys, cluster.id);
    }

    // ----- The list of clusters to show --------------------------------------

    /** The first loop of `reclist_limit`. */
    method ClearMarks()
      requires Valid()
      modifies created`sortedNext
      ensures Threaded([], null) && Marked([])
    {
      var b := 0;
      while b < hashtable.Length
        invariant 0 <= b <= hashtable.Length
        invariant forall a, i :: 0 <= a < b && 0 <= i < |hashtable[a]| ==> hashtable[a][i].sortedNext == null
      {
        var p := 0;
        while p < |hashtable[b]|
          invariant 0 <= p <= |hashtable[b]|
          invariant forall a, i :: 0 <= a < b && 0 <= i < |hashtable[a]| ==> hashtable[a][i].sortedNext == null
          invariant forall i :: 0 <= i < p ==> hashtable[b][i].sortedNext == null
        {
          assert Known(hashtable[b][p]);
          hashtable[b][p].sortedNext := null;
          p := p + 1;
        }
        b := b + 1;
      }
    }

    /** `xs` is threaded from `sortedList` on, and the last of them points to itself. */
    ghost predicate Threaded(xs: seq<RecordCluster>, last: RecordCluster?)
      reads this, xs
    {
      && (last == null <==> xs == [])
      && (xs != [] ==> sortedList == xs[0] && last == xs[|xs| - 1] && xs[|xs| - 1].sortedNext == last)
      && (forall i :: 0 <= i < |xs| - 1 ==> xs[i].sortedNext == xs[i + 1])
    }

    /** Exactly the clusters taken so far are marked, among those in the table. */
    ghost predicate Marked(xs: seq<RecordCluster>)
      reads this, hashtable, created
    {
      forall b, i :: 0 <= b < hashtable.Length && 0 <= i < |hashtable[b]| && Known(hashtable[b][i]) ==>
        (hashtable[b][i].sortedNext != null <==> hashtable[b][i] in xs)
    }

    /** The body of the second loop of `reclist_limit`. */
    method TakeEntry(c: RecordCluster, pass: RecordCluster -> bool, last: RecordCluster?, num: int,
                     ghost xs: seq<RecordCluster>)
        returns (last': RecordCluster?, num': int)
      requires Valid() && Known(c) && NoTwice(xs)
      requires forall x :: x in xs ==> x in created
      requires Threaded(xs, last) && Marked(xs)
      requires exists b, i :: 0 <= b < hashtable.Length && 0 <= i < |hashtable[b]| && hashtable[b][i] == c
      modifies this`sortedList, created`sortedNext
      ensures Threaded(Take(xs, c, pass), last') && Marked(Take(xs, c, pass)) && NoTwice(Take(xs, c, pass))
      ensures num' - |Take(xs, c, pass)| == num - |xs|
    {
      last', num' := last, num;
      if pass(c) {
        if c.sortedNext == null {
          assert last != null ==> last in created;
          if last == null { sortedList := c; } else { last.sortedNext := c; }
          c.sortedNext := c;
          last' := c;
          num' := num + 1;
        }
      }
    }

    /** The second loop of `reclist_limit` over one bucket. */
    method TakeBucket(b: nat, pass: RecordCluster -> bool, last: RecordCluster?, num: int,
                      ghost xs: seq<RecordCluster>)
        returns (last': RecordCluster?, num': int, ghost list: seq<RecordCluster>)
      requires Valid() && b < hashtable.Length && NoTwice(xs)
      requires forall x :: x in xs ==> x in created
      requires xs == Listing(hashtable[..b], pass)
      requires Threaded(xs, last) && Marked(xs) && num == |xs|
      modifies this`sortedList, created`sortedNext
      ensures list == Picked(Flat(hashtable[..b]) + hashtable[b], pass) && NoTwice(list)
      ensures forall c :: c in list ==> c in created
      ensures Threaded(list, last') && Marked(list) && num' == |list|
    {
      hide Picked, NoTwice, Threaded, Marked, Flat;
      ghost var before := Flat(hashtable[..b]);
      last', num', list := last, num, xs;
      var p := 0;
      assert before + hashtable[b][..0] == before;
      while p < |hashtable[b]|
        invariant Valid() && 0 <= p <= |hashtable[b]|
        invariant list == Picked(before + hashtable[b][..p], pass) && NoTwice(list)
        invariant forall c :: c in list ==> c in created
        invariant Threaded(list, last') && Marked(list) && num' == |list|
      {
        var c := hashtable[b][p];
        assert Known(c);
        PickedSnoc(before + hashtable[b][..p], c, pass);
        assert before + hashtable[b][..p + 1] == before + hashtable[b][..p] + [c];
        last', num' := TakeEntry(c, pass, last', num', list);
        list := Take(list, c, pass);
        p := p + 1;
      }
      assert hashtable[b][..p] == hashtable[b];
    }

    /** The mark of the last cluster, which points to itself, gives way to the end of the list. */
    method CloseList(last: RecordCluster?, ghost xs: seq<RecordCluster>)
      requires Threaded(xs, last) && NoTwice(xs)
      requires forall x :: x in xs ==> x in created
      modifies this`sortedList, created`sortedNext
      ensures IsList(sortedList, xs)
    {
      assert last != null ==> last in created;
      if last == null { sortedList := null; } else { last.sortedNext := null; }
    }

    /** The two loops of `reclist_limit`. */
    method ThreadAll(pass: RecordCluster -> bool) returns (num: int, ghost list: seq<RecordCluster>)
      requires Valid()
      modifies this`sortedList, created`sortedNext
      ensures list == Listing(hashtable[..], pass)
      ensures IsList(sortedList, list) && num == |list|
    {
      hide Threaded, Marked, IsList, NoTwice, Listing, Picked, Flat;
      ClearMarks();
      NoTwiceEmpty();
      ListingNone(pass);
      assert hashtable[..0] == [];
      var last: RecordCluster? := null;
      num, list := 0, [];
      var b := 0;
      while b < hashtable.Length
        invariant Valid() && 0 <= b <= hashtable.Length
        invariant list == Listing(hashtable[..b], pass) && NoTwice(list)
        invariant forall c :: c in list ==> c in created
        invariant Threaded(list, last) && Marked(list) && num == |list|
      {
        last, num, list := TakeBucket(b, pass, last, num, list);
        ListingSnoc(hashtable[..b], hashtable[b], pass);
        assert hashtable[..b + 1] == hashtable[..b] + [hashtable[b]];
        b := b + 1;
      }
      assert hashtable[..b] == hashtable[..];
      CloseList(last, list);
    }

    /** `reclist_limit`.  `pass` is the verdict of the cluster limit on each cluster. */
    method Limit(pass: RecordCluster -> bool, lazy: bool) returns (ghost list: seq<RecordCluster>)
      requires Valid()
      modifies this`sortedList, this`sortedPtr, this`numRecords, created`sortedNext
      ensures Valid() && View() == old(View())
      ensures !lazy || old(sortedList) == null ==>
        && list == Listing(hashtable[..], pass)
        && IsList(sortedList, list)
        && numRecords == |list|
      ensures lazy && old(sortedList) != null ==>
        && numRecords == 0 && sortedList == old(sortedList)
        && (forall c :: c in created ==> c.sortedNext == old(c.sortedNext))
      ensures sortedPtr == sortedList
    {
      ghost var s := View();
      var num := 0;
      list := [];
      if !lazy || sortedList == null {
        num, list := ThreadAll(pass);
      }
      numRecords := num;
      sortedPtr := sortedList;
      assert View().clusters == s.clusters;
    }

    /** The first loop of `reclist_sort`: the list as an array. */
    method Collect(parms: seq<O.SortParm>, ghost list: seq<RecordCluster>) returns (flat: seq<RecordCluster>)
      requires Valid() && IsList(sortedList, list) && (forall c :: c in list ==> c in created)
      requires numRecords == |list|
      modifies created`sortParms
      ensures flat == list
      ensures forall c :: c in created ==> EntryOf(c) == old(EntryOf(c))
    {
      flat := [];
      var ptr := sortedList;
      var i := 0;
      while ptr != null
        invariant 0 <= i <= |list| && flat == list[..i]
        invariant IsList(sortedList, list)
        invariant ptr == Nth(list, i)
        decreases |list| - i
      {
        assert ptr in created;
        assert list[i].sortedNext == Nth(list, i + 1);
        ptr.sortParms := parms;
        flat := flat + [ptr];
        ptr := ptr.sortedNext;
        i := i + 1;
      }
      assert i == numRecords;
    }

    /** The last loop of `reclist_sort`: the array as a list. */
    method Relink(flat: seq<RecordCluster>)
      requires Valid() && NoTwice(flat) && (forall c :: c in flat ==> c in created)
      modifies this`sortedList, created`sortedNext
      ensures IsList(sortedList, flat)
      ensures forall c :: c in created ==> EntryOf(c) == old(EntryOf(c))
      ensures Entries(flat) == old(Entries(flat))
    {
      var prev: RecordCluster? := null;
      var i := 0;
      while i < |flat|
        invariant 0 <= i <= |flat|
        invariant prev == if i == 0 then null else flat[i - 1]
        invariant i > 0 ==> sortedList == flat[0]
        invariant forall j :: 0 <= j < i - 1 ==> flat[j].sortedNext == flat[j + 1]
      {
        assert prev != null ==> prev in created;
        if prev == null { sortedList := flat[i]; } else { prev.sortedNext := flat[i]; }
        prev := flat[i];
        i := i + 1;
      }
      assert prev != null ==> prev in created;
      if prev == null { sortedList := null; } else { prev.sortedNext := null; }
    }

    /** The clusters of the list, in order. */
    method Arrange(parms: seq<O.SortParm>, ghost list: seq<RecordCluster>) returns (flat: seq<RecordCluster>)
      requires Valid() && IsList(sortedList, list) && NoTwice(list) && (forall c :: c in list ==> c in created)
      requires numRecords == |list|
      requires O.Sortable(Entries(list))
      modifies created`sortParms
      ensures multiset(flat) == multiset(list) && NoTwice(flat) && (forall c :: c in flat ==> c in created)
      ensures O.Sortable(Entries(flat)) && O.Sorted(parms, Entries(flat))
      ensures old(AllCounted(parms, list)) ==> Shown(parms, flat)
      ensures forall c :: c in created ==> EntryOf(c) == old(EntryOf(c))
    {
      hide Shown, Counted, O.Sorted, O.Sortable;
      flat := Collect(parms, list);
      SameEntries(list);
      flat := Qsort(flat, parms);
      PermutedNoTwice(list, flat);
      if old(AllCounted(parms, list)) { SortedIsShown(parms, flat); }
    }

    /** `reclist_sort`, on the list that `reclist_limit` has left. */
    method Sort(parms: seq<O.SortParm>, ghost list: seq<RecordCluster>) returns (ghost sorted: seq<RecordCluster>)
      requires Valid() && IsList(sortedList, list) && NoTwice(list) && (forall c :: c in list ==> c in created)
      requires numRecords == |list|
      requires O.Sortable(Entries(list))
      modifies this`sortedList, this`sortedPtr, created`sortedNext, created`sortParms
      ensures Valid() && View() == old(View())
      ensures IsList(sortedList, sorted) && sortedPtr == sortedList
      ensures multiset(sorted) == multiset(list) && NoTwice(sorted)
      ensures O.Sortable(Entries(sorted)) && O.Sorted(parms, Entries(sorted))
      ensures old(AllCounted(parms, list)) ==> Shown(parms, sorted)
      ensures forall c :: c in created ==> EntryOf(c) == old(EntryOf(c))
    {
      hide IsList, NoTwice, Entries, O.Sortable, O.Sorted, Shown, AllCounted, View, Valid;
      label before:
      var flat := Arrange(parms, list);
      OnlyListed@before();
      Relink(flat);
      sortedPtr := sortedList;
      sorted := flat;
      OnlyListed@before();
    }

    /** What only the listing changes is no part of the index. */
    twostate lemma OnlyListed()
      requires old(Valid()) && created == old(created) && hashtable[..] == old(hashtable[..])
      requires forall c :: c in created ==>
        c.records == old(c.records) && c.mergeKeys == old(c.mergeKeys) && c.tf == old(c.tf) && c.explain == old(c.explain)
      ensures Valid() && View() == old(View())
    {
      assert forall b :: 0 <= b < hashtable.Length ==> hashtable[b] == hashtable[..][b] == old(hashtable[..][b]);
      assert forall i :: 0 <= i < |created| ==> created[i] in created;
      assert View().clusters == old(View()).clusters && View().table == old(View()).table;
    }

    twostate lemma SameEntries(xs: seq<RecordCluster>)
      requires forall c :: c in xs ==> EntryOf(c) == old(EntryOf(c))
      ensures Entries(xs) == old(Entries(xs))
    {
    }

    /** `reclist_read_record`: the clusters of the list one by one, then null. */
    method ReadRecord(ghost rest: seq<RecordCluster>) returns (c: RecordCluster?)
      requires IsList(sortedPtr, rest)
      modifies this`sortedPtr
      ensures c == if rest == [] then null else rest[0]
      ensures IsList(sortedPtr, if rest == [] then [] else rest[1..])
    {
      assert forall i :: 0 <= i < |rest| - 1 ==> rest[1..][i] == rest[i + 1];
      if sortedPtr != null {
        c := sortedPtr;
        sortedPtr := sortedPtr.sortedNext;
      } else {
        c := null;
      }
    }

    /** Following `sortedNext` from `head` visits `xs` and stops. */
    ghost predicate IsList(head: RecordCluster?, xs: seq<RecordCluster>)
      reads xs`sortedNext
    {
      && head == (if xs == [] then null else xs[0])
      && (forall i :: 0 <= i < |xs| ==> xs[i].sortedNext == Nth(xs, i + 1))
    }
  }

  ghost function Entries(xs: seq<RecordCluster>): (r: seq<O.Entry>)
    reads xs
    ensures |r| == |xs| && forall i :: 0 <= i < |xs| ==> r[i] == EntryOf(xs[i])
  {
    seq(|xs|, i requires 0 <= i < |xs| reads xs => EntryOf(xs[i]))
  }

  /** Stands for the C library's `qsort`: its contract is what that function promises,
      and nothing else about it is used. */
  method Qsort(xs: seq<RecordCluster>, parms: seq<O.SortParm>) returns (ys: seq<RecordCluster>)
    requires O.Sortable(Entries(xs))
    ensures multiset(ys) == multiset(xs)
    ensures O.Sortable(Entries(ys)) && O.Sorted(parms, Entries(ys))
  {
    ys := [];
    var i := 0;
    while i < |xs|
      invariant 0 <= i <= |xs|
      invariant multiset(ys) == multiset(xs[..i])
      invariant O.Sortable(Entries(ys)) && O.Sorted(parms, Entries(ys))
    {
      assert xs[..i + 1] == xs[..i] + [xs[i]];
      FreshIdentifier(xs, i, ys);
      ys := Place(ys, xs[i], parms);
      i := i + 1;
    }
    assert xs[..i] == xs;
  }

  lemma FreshIdentifier(xs: seq<RecordCluster>, i: nat, ys: seq<RecordCluster>)
    requires O.Sortable(Entries(xs)) && i < |xs| && multiset(ys) == multiset(xs[..i])
    ensures forall j :: 0 <= j < |ys| ==> ys[j].recid != xs[i].recid
  {
    forall j | 0 <= j < |ys| ensures ys[j].recid != xs[i].recid {
      assert ys[j] in multiset(xs[..i]);
      var k :| 0 <= k < i && xs[k] == ys[j];
      assert Entries(xs)[k].recid != Entries(xs)[i].recid;
    }
  }

  method Place(xs: seq<RecordCluster>, c: RecordCluster, parms: seq<O.SortParm>) returns (ys: seq<RecordCluster>)
    requires O.Sortable(Entries(xs)) && O.Sorted(parms, Entries(xs))
    requires c.records != []
    requires forall j :: 0 <= j < |xs| ==> xs[j].recid != c.recid
    ensures multiset(ys) == multiset(xs) + multiset{c}
    ensures O.Sortable(Entries(ys)) && O.Sorted(parms, Entries(ys))
  {
    hide O.Sorted, O.Sortable, O.Compare;
    var p := 0;
    ghost var es, e := Entries(xs), EntryOf(c);
    while p < |xs| && O.Compare(parms, EntryOf(xs[p]), EntryOf(c)) <= 0
      invariant 0 <= p <= |xs|
      invariant forall j :: 0 <= j < p ==> O.Compare(parms, es[j], e) <= 0
    {
      p := p + 1;
    }
    ys := xs[..p] + [c] + xs[p..];
    O.InsertSorted(parms, es, e, p);
    assert Entries(ys) == O.Inserted(es, e, p);
    InsertedMultiset(xs, c, p);
  }

  lemma InsertedMultiset(xs: seq<RecordCluster>, c: RecordCluster, p: nat)
    requires p <= |xs|
    ensures multiset(xs[..p] + [c] + xs[p..]) == multiset(xs) + multiset{c}
  {
    assert xs == xs[..p] + xs[p..];
  }

  ghost function Nth(xs: seq<RecordCluster>, i: nat): (r: RecordCluster?)
  {
    if i < |xs| then xs[i] else null
  }

  lemma NoTwiceEmpty()
    ensures NoTwice<RecordCluster>([])
  {
  }

  lemma PermutedNoTwice(xs: seq<RecordCluster>, ys: seq<RecordCluster>)
    requires NoTwice(xs) && multiset(xs) == multiset(ys)
    ensures NoTwice(ys) && (forall c :: c in ys <==> c in xs)
  {
    forall c ensures multiset(xs)[c] <= 1 { AtMostOnce(xs, c); }
    forall i, j | 0 <= i < j < |ys| ensures ys[i] != ys[j] {
      assert ys == ys[..j] + [ys[j]] + ys[j + 1..];
      assert ys[i] in ys[..j];
      assert multiset(ys)[ys[j]] >= multiset(ys[..j])[ys[j]] + 1;
    }
    assert forall c :: c in ys <==> c in multiset(ys);
    assert forall c :: c in xs <==> c in multiset(xs);
  }

  lemma {:induction false} AtMostOnce(xs: seq<RecordCluster>, c: RecordCluster)
    requires NoTwice(xs)
    ensures multiset(xs)[c] <= 1
  {
    if xs != [] {
      AtMostOnce(xs[1..], c);
      assert xs == [xs[0]] + xs[1..];
    }
  }

  /** The entries of the table, bucket by bucket. */
  ghost function Flat(table: seq<seq<RecordCluster>>): (r: seq<RecordCluster>)
  {
    if table == [] then [] else Flat(table[..|table| - 1]) + table[|table| - 1]
  }

  ghost function Take(xs: seq<RecordCluster>, c: RecordCluster, pass: RecordCluster -> bool): (r: seq<RecordCluster>)
  {
    if pass(c) && c !in xs then xs + [c] else xs
  }

  /** The entries that pass, each cluster once, in the order they are met. */
  ghost function Picked(entries: seq<RecordCluster>, pass: RecordCluster -> bool): (r: seq<RecordCluster>)
  {
    if entries == [] then []
    else Take(Picked(entries[..|entries| - 1], pass), entries[|entries| - 1], pass)
  }

  ghost function Listing(table: seq<seq<RecordCluster>>, pass: RecordCluster -> bool): (r: seq<RecordCluster>)
  {
    Picked(Flat(table), pass)
  }

  lemma ListingNone(pass: RecordCluster -> bool)
    ensures Listing([], pass) == []
  {
  }

  lemma ListingSnoc(table: seq<seq<RecordCluster>>, bucket: seq<RecordCluster>, pass: RecordCluster -> bool)
    ensures Listing(table + [bucket], pass) == Picked(Flat(table) + bucket, pass)
  {
    assert (table + [bucket])[..|table|] == table;
  }

  lemma PickedSnoc(entries: seq<RecordCluster>, c: RecordCluster, pass: RecordCluster -> bool)
    ensures Picked(entries + [c], pass) == Take(Picked(entries, pass), c, pass)
  {
    assert (entries + [c])[..|entries|] == entries;
  }

  lemma {:induction false} PickedMeaning(entries: seq<RecordCluster>, pass: RecordCluster -> bool)
    ensures NoTwice(Picked(entries, pass))
    ensures forall c :: c in Picked(entries, pass) <==> c in entries && pass(c)
  {
    if entries != [] {
      var n := |entries| - 1;
      PickedMeaning(entries[..n], pass);
      assert entries == entries[..n] + [entries[n]];
    }
  }

  lemma {:induction false} FlatMeaning(table: seq<seq<RecordCluster>>)
    ensures forall c :: c in Flat(table) <==> exists b :: 0 <= b < |table| && c in table[b]
  {
    if table != [] {
      var n := |table| - 1;
      FlatMeaning(table[..n]);
      forall c ensures c in Flat(table) <==> exists b :: 0 <= b < |table| && c in table[b] {
        if b :| 0 <= b < |table| && c in table[b] {
          assert b < n ==> c in table[..n][b];
        }
      }
    }
  }

  lemma AppendKeysHead(keys: seq<Key>)
    requires keys != []
    ensures AppendKeys([], keys) != [] && AppendKeys([], keys)[0] == keys[0]
  {
    AppendKeysMeaning([keys[0]], keys[1..]);
    assert [] + [keys[0]] == [keys[0]];
    assert AppendKeys([], keys) == AppendKeys([keys[0]], keys[1..]);
  }

  lemma RedirectedTable(s: Index, s': Index, h: Key -> nat, keys: seq<Key>, src: nat, dst: nat)
    requires |s.table| > 0 && s.table == s'.table
    ensures Redirected(s, h, keys, src, dst) == Redirected(s', h, keys, src, dst)
  {
    assert forall k :: Bucket(s, h, k) == Bucket(s', h, k);
  }

  lemma RedirectedNone(s: Index, h: Key -> nat, src: nat, dst: nat)
    requires |s.table| > 0
    ensures Redirected(s, h, [], src, dst) == s.table
  {
  }

  lemma RedirectedSnoc(s: Index, h: Key -> nat, keys: seq<Key>, k: Key, src: nat, dst: nat)
    requires |s.table| > 0
    ensures var b, r := Bucket(s, h, k), Redirected(s, h, keys, src, dst);
      src != dst ==> Redirected(s, h, keys + [k], src, dst) == r[b := Redirect(r[b], src, dst)]
  {
    var b, r := Bucket(s, h, k), Redirected(s, h, keys, src, dst);
    if src != dst {
      forall i | 0 <= i < |s.table|
        ensures Redirected(s, h, keys + [k], src, dst)[i] == r[b := Redirect(r[b], src, dst)][i]
      {
        assert Redirect(Redirect(s.table[i], src, dst), src, dst) == Redirect(s.table[i], src, dst);
        if exists k' :: k' in keys + [k] && Bucket(s, h, k') == i {
          var k' :| k' in keys + [k] && Bucket(s, h, k') == i;
          assert k' in keys || k' == k;
        }
        assert k in keys + [k];
      }
    }
  }
}
