/** The one loop that walks a bucket, for a record with or without a cluster, and
    that it computes what `FirstPass` and `Walk` say. */
module ClusterScan {
  import opened Wrappers
  import opened ClusterIndex
  import opened ClusterInvariant
  import opened ClusterInsert
  import opened ClusterConservation

  /** What the walk over a bucket leaves: the record is rejected, or the state, the
      cluster of the record if it has one, whether the key was found, and the total. */
  datatype ScanResult = Rejected | Scanned(state: Index, held: Option<nat>, hit: bool, total: int)

  /** The walk over the bucket of `k` from entry `p` on. */
  function Scan(s: Index, h: Key -> nat, same: (Record, Record) -> bool, rec: Record,
                held: Option<nat>, k: Key, p: nat, hit: bool, total: int): (r: ScanResult)
    requires Sized(s) && (held.Some? ==> held.value < |s.clusters|)
    decreases |s.table[Bucket(s, h, k)]| - p
  {
    var chain := s.table[Bucket(s, h, k)];
    if p >= |chain| then Scanned(s, held, hit, total)
    else if k in s.clusters[chain[p]].keys then
      match Matched(s, h, same, rec, held, chain[p])
      case Duplicate => Rejected
      case Accepted(t, c) =>
        Scan(t, h, same, rec, Some(c), k, p + 1, true,
             total - (if held.Some? && held.value != chain[p] then 1 else 0))
    else
      Scan(s, h, same, rec, held, k, p + 1, hit, total)
  }

  /** Along the walk no cluster has a key twice, and a cluster found is a live one. */
  ghost predicate ScanSafe(s: Index, h: Key -> nat, same: (Record, Record) -> bool, rec: Record,
                           held: Option<nat>, k: Key, p: nat)
    requires Sized(s) && (held.Some? ==> held.value < |s.clusters|)
    decreases |s.table[Bucket(s, h, k)]| - p
  {
    var chain := s.table[Bucket(s, h, k)];
    p < |chain| ==>
      && NoTwice(s.clusters[chain[p]].keys)
      && (if k in s.clusters[chain[p]].keys then
            && s.clusters[chain[p]].live
            && match Matched(s, h, same, rec, held, chain[p])
               case Duplicate => true
               case Accepted(t, c) => ScanSafe(t, h, same, rec, Some(c), k, p + 1)
          else
            ScanSafe(s, h, same, rec, held, k, p + 1))
  }

  lemma EntryFacts(s: Index, h: Key -> nat, cur: nat, pending: seq<Key>, k: Key, p: nat)
    requires Held(s, h, cur, pending) && p < |s.table[Bucket(s, h, k)]|
    ensures var e := s.table[Bucket(s, h, k)][p];
      && NoTwice(s.clusters[e].keys)
      && (k in s.clusters[e].keys ==> Live(s, e))
  {
    var chain := s.table[Bucket(s, h, k)];
    assert chain[p] in chain;
  }

  /** With a cluster at hand the walk is `Walk`, and the total follows the number of
      live clusters. */
  lemma {:induction false} ScanWalks(s: Index, h: Key -> nat, same: (Record, Record) -> bool, rec: Record,
                                     c: nat, pending: seq<Key>, k: Key, p: nat, hit: bool, total: int)
    requires Held(s, h, c, pending) && Live(s, c)
    ensures ScanSafe(s, h, same, rec, Some(c), k, p)
    ensures var (t, found) := Walk(s, h, c, k, p);
      Scan(s, h, same, rec, Some(c), k, p, hit, total)
      == Scanned(t, Some(c), hit || found, total + |LiveSet(t)| - |LiveSet(s)|)
    decreases |s.table[Bucket(s, h, k)]| - p
  {
    hide LiveSet, Merge, Apart, Findable, DeadHidden, Inherited, DistinctIds;
    var chain := s.table[Bucket(s, h, k)];
    if p < |chain| {
      var e := chain[p];
      EntryFacts(s, h, c, pending, k, p);
      if k in s.clusters[e].keys && e != c {
        MergeKeeps(s, h, c, e, pending);
        MergeLive(s, h, c, e);
        assert Matched(s, h, same, rec, Some(c), e) == Accepted(Merge(s, h, c, e), c);
        ScanWalks(Merge(s, h, c, e), h, same, rec, c, pending, k, p + 1, true, total - 1);
      } else {
        ScanWalks(s, h, same, rec, c, pending, k, p + 1, hit || k in s.clusters[e].keys, total);
      }
    }
  }

  /** The first matching entry: the record is rejected there, or joins and walks on. */
  lemma ScanJoins(s: Index, h: Key -> nat, same: (Record, Record) -> bool, rec: Record, k: Key, p: nat, total: int)
    requires Consistent(s, h) && p < |s.table[Bucket(s, h, k)]|
    requires k in s.clusters[s.table[Bucket(s, h, k)][p]].keys
    ensures ScanSafe(s, h, same, rec, None, k, p)
    ensures Scan(s, h, same, rec, None, k, p, false, total) == Found(s, h, same, rec, k, p, total)
  {
    var e := s.table[Bucket(s, h, k)][p];
    EntryFacts(s, h, 0, [], k, p);
    if !Repeats(s.clusters[e].records, rec, same) {
      HeldFromConsistent(s, h, e, []);
      JoinKeeps(s, h, e, rec, []);
      JoinLive(s, e, rec);
      ScanWalks(Join(s, e, rec), h, same, rec, e, [], k, p + 1, true, total);
    }
  }

  /** What the walk leaves when entry `i` is the first to register `k`. */
  ghost function Found(s: Index, h: Key -> nat, same: (Record, Record) -> bool, rec: Record,
                       k: Key, i: nat, total: int): (r: ScanResult)
    requires Sized(s) && i < |s.table[Bucket(s, h, k)]|
  {
    var c := s.table[Bucket(s, h, k)][i];
    if Repeats(s.clusters[c].records, rec, same) then Rejected
    else
      var t := Walk(Join(s, c, rec), h, c, k, i + 1).0;
      Scanned(t, Some(c), true, total + |LiveSet(t)| - |LiveSet(s)|)
  }

  /** Without a cluster at hand the walk finds the first entry that registers the key. */
  lemma {:induction false} ScanFinds(s: Index, h: Key -> nat, same: (Record, Record) -> bool, rec: Record,
                                     k: Key, p: nat, total: int)
    requires Consistent(s, h)
    ensures ScanSafe(s, h, same, rec, None, k, p)
    ensures Scan(s, h, same, rec, None, k, p, false, total) ==
      match FirstHit(s, h, k, p)
      case None => Scanned(s, None, false, total)
      case Some(i) => Found(s, h, same, rec, k, i, total)
    decreases |s.table[Bucket(s, h, k)]| - p
  {
    var chain := s.table[Bucket(s, h, k)];
    if p < |chain| {
      EntryFacts(s, h, 0, [], k, p);
      if k in s.clusters[chain[p]].keys {
        ScanJoins(s, h, same, rec, k, p, total);
      } else {
        ScanFinds(s, h, same, rec, k, p + 1, total);
      }
    }
  }

  lemma JoinLive(s: Index, c: nat, rec: Record)
    requires c < |s.clusters|
    ensures LiveSet(Join(s, c, rec)) == LiveSet(s)
  {
  }

  lemma EntryLive(s: Index, b: nat, c: nat)
    requires b < |s.table|
    ensures LiveSet(AddEntry(s, b, c)) == LiveSet(s)
  {
  }

  /** A further key: what the walk leaves, and what is still to do to complete the
      pass over the key. */
  lemma LaterKeyScan(s: Index, h: Key -> nat, same: (Record, Record) -> bool, rec: Record,
                     c: nat, pending: seq<Key>, k: Key, total: int)
    requires Held(s, h, c, pending) && Live(s, c)
    ensures ScanSafe(s, h, same, rec, Some(c), k, 0)
    ensures var u, r := KeyPass(s, h, c, k), Scan(s, h, same, rec, Some(c), k, 0, false, total);
      && r.Scanned? && r.held == Some(c)
      && |r.state.table| == |s.table|
      && u == (if r.hit then r.state else AddEntry(r.state, Bucket(s, h, k), c))
      && r.total == total + |LiveSet(u)| - |LiveSet(s)|
  {
    ScanWalks(s, h, same, rec, c, pending, k, 0, false, total);
    EntryLive(Walk(s, h, c, k, 0).0, Bucket(s, h, k), c);
  }

  /** The first key: the record is rejected, has joined a cluster, or needs a new one. */
  lemma FirstKeyScan(s: Index, h: Key -> nat, same: (Record, Record) -> bool, rec: Record,
                     keys: seq<Key>, total: int)
    requires Consistent(s, h) && keys != []
    ensures ScanSafe(s, h, same, rec, None, keys[0], 0)
    ensures var o, r := FirstPass(s, h, same, rec, keys), Scan(s, h, same, rec, None, keys[0], 0, false, total);
      if r.Rejected? then o.Duplicate?
      else if r.held.Some? then
        && o == Accepted(r.state, r.held.value) && r.hit
        && r.total == total + |LiveSet(r.state)| - |LiveSet(s)|
      else
        var u := AddEntry(NewCluster(s, rec, keys), Bucket(s, h, keys[0]), |s.clusters|);
        && r == Scanned(s, None, false, total)
        && o == Accepted(u, |s.clusters|)
        && |LiveSet(u)| == |LiveSet(s)| + 1
  {
    ScanFinds(s, h, same, rec, keys[0], 0, total);
    NewLive(s, rec, keys);
    EntryLive(NewCluster(s, rec, keys), Bucket(s, h, keys[0]), |s.clusters|);
  }

  /** After the first `i` keys of an insertion that started in `s`, the state is `v`
      and the record, if not rejected, is in cluster `c`. */
  ghost predicate Underway(s: Index, v: Index, h: Key -> nat, same: (Record, Record) -> bool, rec: Record,
                           keys: seq<Key>, i: nat, c: Option<nat>)
    requires i <= |keys| && keys != [] && Sized(s)
  {
    match c
    case None => i == 0 && v == s && Consistent(s, h)
    case Some(n) =>
      && Held(v, h, n, keys[i..]) && Live(v, n)
      && Insert(s, h, same, rec, keys) == Accepted(Passes(v, h, n, keys[i..]), n)
  }

  lemma UnderwayStart(s: Index, h: Key -> nat, same: (Record, Record) -> bool, rec: Record, keys: seq<Key>)
    requires Consistent(s, h) && keys != []
    ensures Sized(s) && Underway(s, s, h, same, rec, keys, 0, None)
  {
  }

  lemma UnderwayFirst(s: Index, h: Key -> nat, same: (Record, Record) -> bool, rec: Record, keys: seq<Key>)
    requires Consistent(s, h) && keys != [] && FirstPass(s, h, same, rec, keys).Accepted?
    ensures var Accepted(v, c) := FirstPass(s, h, same, rec, keys); Underway(s, v, h, same, rec, keys, 1, Some(c))
  {
    var e := InsertStarts(s, h, same, rec, keys);
  }

  lemma UnderwayNext(s: Index, v: Index, h: Key -> nat, same: (Record, Record) -> bool, rec: Record,
                     keys: seq<Key>, i: nat, c: nat)
    requires Sized(s) && i < |keys| && Underway(s, v, h, same, rec, keys, i, Some(c))
    ensures Underway(s, KeyPass(v, h, c, keys[i]), h, same, rec, keys, i + 1, Some(c))
  {
    assert keys[i..][0] == keys[i] && keys[i..][1..] == keys[i + 1..];
    KeyPassMeaning(v, h, c, keys[i..]);
  }

  lemma UnderwayDone(s: Index, v: Index, h: Key -> nat, same: (Record, Record) -> bool, rec: Record,
                     keys: seq<Key>, c: nat)
    requires Sized(s) && keys != [] && Underway(s, v, h, same, rec, keys, |keys|, Some(c))
    ensures Consistent(v, h) && Insert(s, h, same, rec, keys) == Accepted(v, c)
  {
    assert keys[|keys|..] == [];
  }
}
