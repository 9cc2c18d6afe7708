/** The state that `reclist_insert` works on, and what one insertion computes.

    Clusters are numbered in order of creation, so a bucket is a sequence of
    cluster numbers.  A merged-away cluster keeps its number and its data; it is
    no longer `live` (its explanation buffers have been released).  The hash is
    any function at all. */
module ClusterIndex {
  import opened Wrappers

  type Key = string

  /** `id` stands for the address of the record, so two records with equal
      content stay different records. */
  datatype Record = Record(id: nat, client: nat, position: int)

  datatype Cluster = Cluster(
    records: seq<Record>,
    keys: seq<Key>,
    recid: Key,
    tf: seq<int>,
    live: bool)

  /** `veclen` is the length of every term-frequency vector. */
  datatype Index = Index(clusters: seq<Cluster>, table: seq<seq<nat>>, veclen: nat)

  /** The result of an insertion: the record repeats one the cluster already has,
      or it now belongs to the given cluster. */
  datatype Outcome = Duplicate | Accepted(state: Index, cluster: nat)

  ghost predicate WellFormed(s: Index)
  {
    && |s.table| > 0
    && (forall b, i :: 0 <= b < |s.table| && 0 <= i < |s.table[b]| ==> s.table[b][i] < |s.clusters|)
  }

  function Bucket(s: Index, h: Key -> nat, k: Key): (b: nat)
    requires |s.table| > 0
    ensures b < |s.table|
  {
    h(k) % |s.table|
  }

  // ----- The operations ------------------------------------------------------

  /** Appends each key of `a` that is not there yet. */
  function AppendKeys(p: seq<Key>, a: seq<Key>): (r: seq<Key>)
    decreases |a|
  {
    if a == [] then p
    else AppendKeys(if a[0] in p then p else p + [a[0]], a[1..])
  }

  function AddVectors(a: seq<int>, b: seq<int>): (r: seq<int>)
    requires |a| == |b|
    ensures |r| == |a|
  {
    seq(|a|, i requires 0 <= i < |a| => a[i] + b[i])
  }

  /** Every entry of `chain` that leads to `src` now leads to `dst`. */
  function Redirect(chain: seq<nat>, src: nat, dst: nat): (r: seq<nat>)
  {
    seq(|chain|, i requires 0 <= i < |chain| => if chain[i] == src then dst else chain[i])
  }

  /** Redirects the buckets of the given keys and leaves the other buckets alone. */
  function Redirected(s: Index, h: Key -> nat, keys: seq<Key>, src: nat, dst: nat): (r: seq<seq<nat>>)
    requires |s.table| > 0
  {
    seq(|s.table|, b requires 0 <= b < |s.table| =>
      if exists k :: k in keys && Bucket(s, h, k) == b
      then Redirect(s.table[b], src, dst) else s.table[b])
  }

  /** `merge_cluster`: `dst` takes over the records, keys and counts of `src`. */
  function Merge(s: Index, h: Key -> nat, dst: nat, src: nat): (r: Index)
    requires WellFormed(s) && dst < |s.clusters| && src < |s.clusters| && dst != src
    requires |s.clusters[dst].tf| == |s.clusters[src].tf|
  {
    var d, x := s.clusters[dst], s.clusters[src];
    var d' := d.(records := d.records + x.records,
                 keys := AppendKeys(d.keys, x.keys),
                 tf := AddVectors(d.tf, x.tf));
    Index(s.clusters[dst := d'][src := x.(live := false)],
          Redirected(s, h, x.keys, src, dst), s.veclen)
  }

  function AddEntry(s: Index, b: nat, c: nat): (r: Index)
    requires b < |s.table|
  {
    s.(table := s.table[b := s.table[b] + [c]])
  }

  function NewCluster(s: Index, rec: Record, keys: seq<Key>): (r: Index)
    requires keys != []
  {
    var c := Cluster([rec], AppendKeys([], keys), keys[0], seq(s.veclen, _ => 0), true);
    s.(clusters := s.clusters + [c])
  }

  function Join(s: Index, c: nat, rec: Record): (r: Index)
    requires c < |s.clusters|
  {
    s.(clusters := s.clusters[c := s.clusters[c].(records := s.clusters[c].records + [rec])])
  }

  /** All vectors have the same length; holds of every reachable state and makes
      every merge well defined. */
  ghost predicate Sized(s: Index)
  {
    && WellFormed(s)
    && (forall c :: 0 <= c < |s.clusters| ==> |s.clusters[c].tf| == s.veclen)
  }

  /** The walk over the bucket of `m` from entry `i` on, once the record has its
      cluster `cur`: an entry that registers `m` is merged into `cur`.  Also says
      whether any entry registered `m`. */
  function Walk(s: Index, h: Key -> nat, cur: nat, m: Key, i: nat): (r: (Index, bool))
    requires Sized(s) && cur < |s.clusters|
    ensures Sized(r.0) && |r.0.clusters| == |s.clusters| && |r.0.table| == |s.table|
    ensures |r.0.table[Bucket(s, h, m)]| == |s.table[Bucket(s, h, m)]|
    decreases |s.table[Bucket(s, h, m)]| - i
  {
    var chain := s.table[Bucket(s, h, m)];
    if i >= |chain| then (s, false)
    else if m in s.clusters[chain[i]].keys then
      var s' := if chain[i] == cur then s else Merge(s, h, cur, chain[i]);
      (Walk(s', h, cur, m, i + 1).0, true)
    else
      Walk(s, h, cur, m, i + 1)
  }

  /** One further key of a record whose cluster is `cur`. */
  function KeyPass(s: Index, h: Key -> nat, cur: nat, m: Key): (r: Index)
    requires Sized(s) && cur < |s.clusters|
    ensures Sized(r) && |r.clusters| == |s.clusters| && |r.table| == |s.table|
  {
    var (t, hit) := Walk(s, h, cur, m, 0);
    if hit then t else AddEntry(t, Bucket(s, h, m), cur)
  }

  function Passes(s: Index, h: Key -> nat, cur: nat, keys: seq<Key>): (r: Index)
    requires Sized(s) && cur < |s.clusters|
    ensures Sized(r) && |r.clusters| == |s.clusters| && |r.table| == |s.table|
    decreases |keys|
  {
    if keys == [] then s else Passes(KeyPass(s, h, cur, keys[0]), h, cur, keys[1..])
  }

  /** The first entry from `i` on whose cluster registers `m`. */
  function FirstHit(s: Index, h: Key -> nat, m: Key, i: nat): (r: Option<nat>)
    requires WellFormed(s)
    ensures r.Some? ==>
      var chain := s.table[Bucket(s, h, m)];
      i <= r.value < |chain| && m in s.clusters[chain[r.value]].keys
    ensures forall j ::
      i <= j < (if r.Some? then r.value else |s.table[Bucket(s, h, m)]|) ==>
        m !in s.clusters[s.table[Bucket(s, h, m)][j]].keys
    decreases |s.table[Bucket(s, h, m)]| - i
  {
    var chain := s.table[Bucket(s, h, m)];
    if i >= |chain| then None
    else if m in s.clusters[chain[i]].keys then Some(i)
    else FirstHit(s, h, m, i + 1)
  }

  /** Whether the cluster already has a record of the same client that `same`
      takes for the same record (`record_compare`, any relation). */
  predicate Repeats(records: seq<Record>, rec: Record, same: (Record, Record) -> bool)
  {
    exists r :: r in records && r.client == rec.client && same(rec, r)
  }

  /** An entry that registers the key looked up: the record joins its cluster, or the
      cluster is merged into the one that the record already has. */
  function Matched(s: Index, h: Key -> nat, same: (Record, Record) -> bool, rec: Record,
                   held: Option<nat>, e: nat): (r: Outcome)
    requires Sized(s) && e < |s.clusters| && (held.Some? ==> held.value < |s.clusters|)
    ensures r.Accepted? ==>
      && Sized(r.state) && r.cluster < |r.state.clusters| == |s.clusters|
      && |r.state.table| == |s.table|
      && forall b :: 0 <= b < |s.table| ==> |r.state.table[b]| == |s.table[b]|
  {
    match held
    case Some(c) => Accepted(if c == e then s else Merge(s, h, c, e), c)
    case None =>
      if Repeats(s.clusters[e].records, rec, same) then Duplicate else Accepted(Join(s, e, rec), e)
  }

  /** The first key of a record: the record repeats one of the cluster found, joins
      that cluster, or starts a new one. */
  function FirstPass(s: Index, h: Key -> nat, same: (Record, Record) -> bool,
                     rec: Record, keys: seq<Key>): (r: Outcome)
    requires Sized(s) && keys != []
    ensures r.Accepted? ==> Sized(r.state) && r.cluster < |r.state.clusters|
  {
    var m := keys[0];
    var b := Bucket(s, h, m);
    match FirstHit(s, h, m, 0)
    case Some(i) =>
      var c := s.table[b][i];
      if Repeats(s.clusters[c].records, rec, same) then Duplicate
      else Accepted(Walk(Join(s, c, rec), h, c, m, i + 1).0, c)
    case None =>
      Accepted(AddEntry(NewCluster(s, rec, keys), b, |s.clusters|), |s.clusters|)
  }

  /** `reclist_insert`. */
  function Insert(s: Index, h: Key -> nat, same: (Record, Record) -> bool,
                  rec: Record, keys: seq<Key>): (r: Outcome)
    requires Sized(s) && keys != []
    ensures r.Accepted? ==> Sized(r.state) && r.cluster < |r.state.clusters|
  {
    match FirstPass(s, h, same, rec, keys)
    case Duplicate => Duplicate
    case Accepted(e, c) => Accepted(Passes(e, h, c, keys[1..]), c)
  }

  function Empty(size: nat, veclen: nat): (r: Index)
  {
    Index([], seq(size, _ => []), veclen)
  }
}
