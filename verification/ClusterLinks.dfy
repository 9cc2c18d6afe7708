/** Clusters against connected components: after any run of insertions, what a
    cluster has to do with records that share merge keys. */
module ClusterLinks {
  import opened ClusterIndex
  import opened ClusterInvariant
  import opened ClusterInsert
  import opened ClusterConservation

  /** The merge keys of every accepted record. */
  type History = map<Record, seq<Key>>

  datatype Input = Input(rec: Record, keys: seq<Key>)

  // ----- Connected components ------------------------------------------------

  ghost predicate Share(hist: History, a: Record, b: Record)
  {
    a in hist && b in hist && exists k :: k in hist[a] && k in hist[b]
  }

  ghost predicate Chain(hist: History, p: seq<Record>)
  {
    && p != []
    && p[0] in hist
    && (forall i :: 0 <= i < |p| - 1 ==> Share(hist, p[i], p[i + 1]))
  }

  /** A chain of accepted records leads from `a` to `b`, each sharing a key with
      the next one. */
  ghost predicate Linked(hist: History, a: Record, b: Record)
  {
    exists p :: Chain(hist, p) && p[0] == a && p[|p| - 1] == b
  }

  lemma LinkedRefl(hist: History, a: Record)
    requires a in hist
    ensures Linked(hist, a, a)
  {
    assert Chain(hist, [a]);
  }

  lemma LinkedStep(hist: History, a: Record, b: Record, c: Record)
    requires Linked(hist, a, b) && Share(hist, b, c)
    ensures Linked(hist, a, c)
  {
    var p :| Chain(hist, p) && p[0] == a && p[|p| - 1] == b;
    assert Chain(hist, p + [c]);
  }

  lemma {:induction false} LinkedTrans(hist: History, a: Record, b: Record, c: Record, q: seq<Record>)
    requires Linked(hist, a, b) && Chain(hist, q) && q[0] == b && q[|q| - 1] == c
    ensures Linked(hist, a, c)
    decreases |q|
  {
    if |q| > 1 {
      assert Share(hist, q[0], q[1]);
      LinkedStep(hist, a, b, q[1]);
      var r := q[1..];
      forall i | 0 <= i < |r| - 1 ensures Share(hist, r[i], r[i + 1]) {
        assert Share(hist, q[i + 1], q[i + 2]);
      }
      LinkedTrans(hist, a, q[1], c, r);
    }
  }

  lemma LinkedJoin(hist: History, a: Record, b: Record, c: Record)
    requires Linked(hist, a, b) && Linked(hist, b, c)
    ensures Linked(hist, a, c)
  {
    var q :| Chain(hist, q) && q[0] == b && q[|q| - 1] == c;
    LinkedTrans(hist, a, b, c, q);
  }

  lemma {:induction false} LinkedSym(hist: History, p: seq<Record>)
    requires Chain(hist, p)
    ensures Linked(hist, p[|p| - 1], p[0])
    decreases |p|
  {
    if |p| == 1 {
      LinkedRefl(hist, p[0]);
    } else {
      var r := p[1..];
      assert Share(hist, p[0], p[1]);
      forall i | 0 <= i < |r| - 1 ensures Share(hist, r[i], r[i + 1]) {
        assert Share(hist, p[i + 1], p[i + 2]);
      }
      LinkedSym(hist, r);
      LinkedStep(hist, p[|p| - 1], p[1], p[0]);
    }
  }

  lemma LinkedBack(hist: History, a: Record, b: Record)
    requires Linked(hist, a, b)
    ensures Linked(hist, b, a)
  {
    var p :| Chain(hist, p) && p[0] == a && p[|p| - 1] == b;
    LinkedSym(hist, p);
  }

  lemma LinkedGrows(hist: History, rec: Record, keys: seq<Key>, a: Record, b: Record)
    requires rec !in hist && Linked(hist, a, b)
    ensures Linked(hist[rec := keys], a, b)
  {
    var p :| Chain(hist, p) && p[0] == a && p[|p| - 1] == b;
    forall i | 0 <= i < |p| - 1 ensures Share(hist[rec := keys], p[i], p[i + 1]) {
      assert Share(hist, p[i], p[i + 1]);
    }
    assert Chain(hist[rec := keys], p);
  }

  // ----- Soundness -----------------------------------------------------------

  ghost predicate Holds(s: Index, c: nat, r: Record)
  {
    Live(s, c) && r in s.clusters[c].records
  }

  ghost predicate SameCluster(s: Index, a: Record, b: Record)
  {
    exists c :: Holds(s, c, a) && Holds(s, c, b)
  }

  /** `r` is a record of live cluster `c` that carries `k`. */
  ghost predicate Carries(s: Index, hist: History, c: nat, r: Record, k: Key)
  {
    Holds(s, c, r) && r in hist && k in hist[r]
  }

  /** Every registered key is carried by a record of its cluster. */
  ghost predicate KeysCarried(s: Index, hist: History)
  {
    forall c, k :: Registers(s, c, k) ==> exists r :: Carries(s, hist, c, r, k)
  }

  /** The records of a live cluster are accepted and linked to one another. */
  ghost predicate ClustersLinked(s: Index, hist: History)
  {
    && (forall c, r :: Holds(s, c, r) ==> r in hist)
    && (forall c, a, b :: Holds(s, c, a) && Holds(s, c, b) ==> Linked(hist, a, b))
  }

  /** Every record accepted is in the records of the live clusters exactly once,
      and no other record is. */
  ghost predicate Partitioned(s: Index, hist: History)
  {
    forall r :: Occurrences(s.clusters, r) == if r in hist then 1 else 0
  }

  lemma {:induction false} HeldOccurs(cs: seq<Cluster>, c: nat, r: Record)
    requires c < |cs| && cs[c].live && r in cs[c].records
    ensures Occurrences(cs, r) >= multiset(cs[c].records)[r] >= 1
  {
    if c < |cs| - 1 {
      HeldOccurs(cs[..|cs| - 1], c, r);
    }
  }

  lemma {:induction false} OccursHeld(cs: seq<Cluster>, r: Record) returns (c: nat)
    requires Occurrences(cs, r) > 0
    ensures c < |cs| && cs[c].live && r in cs[c].records
  {
    var n := |cs| - 1;
    if LiveCount(cs[n], r) > 0 {
      c := n;
    } else {
      c := OccursHeld(cs[..n], r);
    }
  }

  /** No record is in two live clusters. */
  lemma {:induction false} HeldOnce(cs: seq<Cluster>, c: nat, d: nat, r: Record)
    requires c < d < |cs| && cs[c].live && cs[d].live && r in cs[c].records && r in cs[d].records
    ensures Occurrences(cs, r) >= 2
  {
    var n := |cs| - 1;
    if d == n {
      HeldOccurs(cs[..n], c, r);
    } else {
      HeldOnce(cs[..n], c, d, r);
    }
  }

  /** What is in a cluster after an insertion was in it before, was in a touched
      cluster, or is the new record. */
  lemma HoldsBefore(s: Index, h: Key -> nat, same: (Record, Record) -> bool, rec: Record, keys: seq<Key>,
                    x: nat, r: Record)
    requires Consistent(s, h) && keys != []
    requires Insert(s, h, same, rec, keys).Accepted?
    ensures var Accepted(t, c) := Insert(s, h, same, rec, keys);
      Holds(t, x, r) <==>
        if x == c then r == rec || Holds(s, c, r) || exists y :: Touched(s, c, keys, y) && Holds(s, y, r)
        else Holds(s, x, r) && !Touched(s, c, keys, x)
  {
    InsertMeaning(s, h, same, rec, keys);
    var Accepted(t, c) := Insert(s, h, same, rec, keys);
    PlacedLive(s, rec, keys, c);
    var p := Placed(s, rec, keys, c);
    forall y ensures RecordFrom(p, c, keys, y, r) <==> Touched(s, c, keys, y) && Holds(s, y, r) {
    }
    if x == c {
      if y :| RecordFrom(p, c, keys, y, r) { assert Touched(s, c, keys, y) && Holds(s, y, r); }
      if y :| Touched(s, c, keys, y) && Holds(s, y, r) { assert RecordFrom(p, c, keys, y, r); }
    }
  }

  lemma RegistersBefore(s: Index, h: Key -> nat, same: (Record, Record) -> bool, rec: Record, keys: seq<Key>,
                        x: nat, k: Key)
    requires Consistent(s, h) && keys != []
    requires Insert(s, h, same, rec, keys).Accepted?
    ensures var Accepted(t, c) := Insert(s, h, same, rec, keys);
      Registers(t, x, k) <==>
        if x == c then
          || (c == |s.clusters| && k in keys)
          || Registers(s, c, k)
          || exists y :: Touched(s, c, keys, y) && Registers(s, y, k)
        else Registers(s, x, k) && !Touched(s, c, keys, x)
  {
    InsertMeaning(s, h, same, rec, keys);
    var Accepted(t, c) := Insert(s, h, same, rec, keys);
    PlacedLive(s, rec, keys, c);
    var p := Placed(s, rec, keys, c);
    if c == |s.clusters| { NewClusterRegisters(s, rec, keys, c, k); }
    if x == c {
      forall y ensures KeyFrom(p, c, keys, y, k) <==> Touched(s, c, keys, y) && Registers(s, y, k) {
      }
      if y :| KeyFrom(p, c, keys, y, k) { assert Touched(s, c, keys, y) && Registers(s, y, k); }
      if y :| Touched(s, c, keys, y) && Registers(s, y, k) { assert KeyFrom(p, c, keys, y, k); }
    }
  }

  /** A record of a cluster that registers one of the keys is linked to the new
      record: the key is carried by some record of that cluster. */
  lemma LinkedToNew(s: Index, hist: History, rec: Record, keys: seq<Key>, c: nat, k: Key, a: Record)
    requires KeysCarried(s, hist) && ClustersLinked(s, hist) && rec !in hist
    requires Registers(s, c, k) && k in keys && Holds(s, c, a)
    ensures Linked(hist[rec := keys], a, rec)
  {
    var r :| Carries(s, hist, c, r, k);
    LinkedGrows(hist, rec, keys, a, r);
    assert Share(hist[rec := keys], r, rec);
    LinkedStep(hist[rec := keys], a, r, rec);
  }

  lemma InsertKeepsCarried(s: Index, hist: History, h: Key -> nat, same: (Record, Record) -> bool,
                           rec: Record, keys: seq<Key>)
    requires Consistent(s, h) && keys != [] && rec !in hist && KeysCarried(s, hist)
    requires Insert(s, h, same, rec, keys).Accepted?
    ensures KeysCarried(Insert(s, h, same, rec, keys).state, hist[rec := keys])
  {
    var Accepted(t, c) := Insert(s, h, same, rec, keys);
    var hist' := hist[rec := keys];
    forall x, k | Registers(t, x, k) ensures exists r :: Carries(t, hist', x, r, k) {
      RegistersBefore(s, h, same, rec, keys, x, k);
      if x == c && c == |s.clusters| && k in keys {
        HoldsBefore(s, h, same, rec, keys, c, rec);
        assert Carries(t, hist', c, rec, k);
      } else {
        var y: nat :| Registers(s, y, k) && (y == x || (x == c && Touched(s, c, keys, y)));
        var r :| Carries(s, hist, y, r, k);
        HoldsBefore(s, h, same, rec, keys, x, r);
        assert Carries(t, hist', x, r, k);
      }
    }
  }

  lemma NewLinkedToAll(s: Index, hist: History, h: Key -> nat, same: (Record, Record) -> bool,
                       rec: Record, keys: seq<Key>, a: Record)
    requires Consistent(s, h) && keys != [] && rec !in hist
    requires KeysCarried(s, hist) && ClustersLinked(s, hist)
    requires Insert(s, h, same, rec, keys).Accepted?
    requires var Accepted(t, c) := Insert(s, h, same, rec, keys); Holds(t, c, a)
    ensures Linked(hist[rec := keys], a, rec)
  {
    var c := Insert(s, h, same, rec, keys).cluster;
    HoldsBefore(s, h, same, rec, keys, c, a);
    if a == rec {
      LinkedRefl(hist[rec := keys], rec);
    } else if Holds(s, c, a) {
      InsertMeaning(s, h, same, rec, keys);
      LinkedToNew(s, hist, rec, keys, c, keys[0], a);
    } else {
      var y :| Touched(s, c, keys, y) && Holds(s, y, a);
      var k :| k in keys && Registers(s, y, k);
      LinkedToNew(s, hist, rec, keys, y, k, a);
    }
  }

  lemma InsertKeepsLinked(s: Index, hist: History, h: Key -> nat, same: (Record, Record) -> bool,
                          rec: Record, keys: seq<Key>)
    requires Consistent(s, h) && keys != [] && rec !in hist
    requires KeysCarried(s, hist) && ClustersLinked(s, hist)
    requires Insert(s, h, same, rec, keys).Accepted?
    ensures ClustersLinked(Insert(s, h, same, rec, keys).state, hist[rec := keys])
  {
    var Accepted(t, c) := Insert(s, h, same, rec, keys);
    var hist' := hist[rec := keys];
    forall x, a | Holds(t, x, a) ensures a in hist' {
      if x == c { NewLinkedToAll(s, hist, h, same, rec, keys, a); }
      HoldsBefore(s, h, same, rec, keys, x, a);
    }
    forall x, a, b | Holds(t, x, a) && Holds(t, x, b) ensures Linked(hist', a, b) {
      if x == c {
        NewLinkedToAll(s, hist, h, same, rec, keys, a);
        NewLinkedToAll(s, hist, h, same, rec, keys, b);
        LinkedBack(hist', b, rec);
        LinkedJoin(hist', a, rec, b);
      } else {
        HoldsBefore(s, h, same, rec, keys, x, a);
        HoldsBefore(s, h, same, rec, keys, x, b);
        LinkedGrows(hist, rec, keys, a, b);
      }
    }
  }

  lemma InsertKeepsPartition(s: Index, hist: History, h: Key -> nat, same: (Record, Record) -> bool,
                             rec: Record, keys: seq<Key>)
    requires Consistent(s, h) && keys != [] && rec !in hist && Partitioned(s, hist)
    requires Insert(s, h, same, rec, keys).Accepted?
    ensures Partitioned(Insert(s, h, same, rec, keys).state, hist[rec := keys])
  {
    var Accepted(t, c) := Insert(s, h, same, rec, keys);
    forall r ensures Occurrences(t.clusters, r) == if r in hist[rec := keys] then 1 else 0 {
      InsertConserves(s, h, same, rec, keys, r, 0);
      assert Occurrences(s.clusters, r) == if r in hist then 1 else 0;
    }
  }

  // ----- Runs ----------------------------------------------------------------

  ghost predicate Good(s: Index, hist: History, h: Key -> nat)
  {
    && Consistent(s, h)
    && KeysCarried(s, hist)
    && ClustersLinked(s, hist)
    && Partitioned(s, hist)
  }

  /** One call of the insertion, with the record of what was accepted. */
  function Step(s: Index, hist: History, h: Key -> nat, same: (Record, Record) -> bool, i: Input): (r: (Index, History))
    requires Sized(s) && i.keys != []
    ensures Sized(r.0)
  {
    match Insert(s, h, same, i.rec, i.keys)
    case Duplicate => (s, hist)
    case Accepted(t, _) => (t, hist[i.rec := i.keys])
  }

  /** The inputs of a run: every record is a new one and carries a key. */
  ghost predicate Proper(inputs: seq<Input>)
  {
    && (forall i :: 0 <= i < |inputs| ==> inputs[i].keys != [])
    && (forall i, j :: 0 <= i < j < |inputs| ==> inputs[i].rec != inputs[j].rec)
  }

  /** The state of a new list after the given calls. */
  ghost function Run(size: nat, veclen: nat, h: Key -> nat, same: (Record, Record) -> bool, inputs: seq<Input>)
      : (r: (Index, History))
    requires size > 0 && Proper(inputs)
    ensures Sized(r.0)
  {
    if inputs == [] then (Empty(size, veclen), map[])
    else
      var n := |inputs| - 1;
      var (s, hist) := Run(size, veclen, h, same, inputs[..n]);
      Step(s, hist, h, same, inputs[n])
  }

  lemma EmptyGood(size: nat, veclen: nat, h: Key -> nat)
    requires size > 0
    ensures Good(Empty(size, veclen), map[], h)
  {
  }

  lemma StepKeepsGood(s: Index, hist: History, h: Key -> nat, same: (Record, Record) -> bool, i: Input)
    requires Good(s, hist, h) && i.keys != [] && i.rec !in hist
    ensures var (t, hist') := Step(s, hist, h, same, i); Good(t, hist', h)
  {
    if Insert(s, h, same, i.rec, i.keys).Accepted? {
      InsertMeaning(s, h, same, i.rec, i.keys);
      InsertKeepsCarried(s, hist, h, same, i.rec, i.keys);
      InsertKeepsLinked(s, hist, h, same, i.rec, i.keys);
      InsertKeepsPartition(s, hist, h, same, i.rec, i.keys);
    }
  }

  lemma {:induction false} RunHistory(size: nat, veclen: nat, h: Key -> nat, same: (Record, Record) -> bool,
                                      inputs: seq<Input>)
    requires size > 0 && Proper(inputs)
    ensures forall r :: r in Run(size, veclen, h, same, inputs).1 ==>
      exists i :: 0 <= i < |inputs| && inputs[i].rec == r
  {
    if inputs != [] {
      RunHistory(size, veclen, h, same, inputs[..|inputs| - 1]);
    }
  }

  /** After any run: the index is consistent, the records of a live cluster are
      linked by chains of shared keys, and the live clusters partition the accepted
      records. */
  lemma {:induction false} RunIsGood(size: nat, veclen: nat, h: Key -> nat, same: (Record, Record) -> bool,
                                     inputs: seq<Input>)
    requires size > 0 && Proper(inputs)
    ensures var (s, hist) := Run(size, veclen, h, same, inputs); Good(s, hist, h)
  {
    hide Insert, Step, Good;
    if inputs == [] {
      EmptyGood(size, veclen, h);
    } else {
      var n := |inputs| - 1;
      RunIsGood(size, veclen, h, same, inputs[..n]);
      RunHistory(size, veclen, h, same, inputs[..n]);
      var (s, hist) := Run(size, veclen, h, same, inputs[..n]);
      StepKeepsGood(s, hist, h, same, inputs[n]);
    }
  }

  // ----- Completeness --------------------------------------------------------

  ghost predicate Unregistered(s: Index, hist: History, c: nat, r: Record, k: Key)
  {
    Holds(s, c, r) && r in hist && k in hist[r] && k !in s.clusters[c].keys
  }

  /** Every key of every record is registered by the cluster of the record. */
  ghost predicate Covered(s: Index, hist: History)
  {
    forall c, r, k :: !Unregistered(s, hist, c, r, k)
  }

  /** What a caller can check before the call: a record whose first key is registered
      has only registered keys. */
  ghost predicate AllKnown(s: Index, keys: seq<Key>)
  {
    keys != [] && Registered(s, keys[0]) ==> forall k :: k in keys ==> Registered(s, k)
  }

  /** The live clusters are exactly the connected components of "shares a key". */
  ghost predicate Exact(s: Index, hist: History)
  {
    forall a, b :: a in hist && b in hist ==> (Linked(hist, a, b) <==> SameCluster(s, a, b))
  }

  lemma InsertCovers(s: Index, hist: History, h: Key -> nat, same: (Record, Record) -> bool, rec: Record, keys: seq<Key>)
    requires Good(s, hist, h) && keys != [] && rec !in hist && Covered(s, hist) && AllKnown(s, keys)
    requires Insert(s, h, same, rec, keys).Accepted?
    ensures Covered(Insert(s, h, same, rec, keys).state, hist[rec := keys])
  {
    hide Insert;
    var Accepted(t, c) := Insert(s, h, same, rec, keys);
    var hist' := hist[rec := keys];
    InsertMeaning(s, h, same, rec, keys);
    forall x, r, k | Holds(t, x, r) && r in hist' && k in hist'[r] ensures Registers(t, x, k) {
      HoldsBefore(s, h, same, rec, keys, x, r);
      RegistersBefore(s, h, same, rec, keys, x, k);
      if r == rec {
        if Holds(s, x, rec) { assert false; }
        if c < |s.clusters| {
          assert Registered(s, k);
          var y :| Registers(s, y, k);
          assert y == c || Touched(s, c, keys, y);
        }
      } else if x == c && !Holds(s, c, r) {
        var y :| Touched(s, c, keys, y) && Holds(s, y, r);
        assert !Unregistered(s, hist, y, r, k);
        assert Registers(s, y, k);
      } else {
        assert !Unregistered(s, hist, x, r, k);
      }
    }
  }

  lemma InsertUncovers(s: Index, hist: History, h: Key -> nat, same: (Record, Record) -> bool, rec: Record, keys: seq<Key>)
    requires Good(s, hist, h) && keys != [] && rec !in hist && !AllKnown(s, keys)
    requires Insert(s, h, same, rec, keys).Accepted?
    ensures !Covered(Insert(s, h, same, rec, keys).state, hist[rec := keys])
  {
    var Accepted(t, c) := Insert(s, h, same, rec, keys);
    InsertMeaning(s, h, same, rec, keys);
    var k :| k in keys && !Registered(s, k);
    HoldsBefore(s, h, same, rec, keys, c, rec);
    RegistersBefore(s, h, same, rec, keys, c, k);
    assert Unregistered(t, hist[rec := keys], c, rec, k);
  }

  /** From a covered state, an accepted insertion leads to a covered state exactly
      when the record is one whose keys are all known, or all up to it to register. */
  lemma CoveredExactly(s: Index, hist: History, h: Key -> nat, same: (Record, Record) -> bool, rec: Record, keys: seq<Key>)
    requires Good(s, hist, h) && keys != [] && rec !in hist && Covered(s, hist)
    requires Insert(s, h, same, rec, keys).Accepted?
    ensures Covered(Insert(s, h, same, rec, keys).state, hist[rec := keys]) <==> AllKnown(s, keys)
  {
    if AllKnown(s, keys) {
      InsertCovers(s, hist, h, same, rec, keys);
    } else {
      InsertUncovers(s, hist, h, same, rec, keys);
    }
  }

  /** Records that share a key are in the same cluster. */
  ghost predicate SharersTogether(s: Index, hist: History)
  {
    forall a, b, c :: Share(hist, a, b) && Holds(s, c, a) ==> Holds(s, c, b)
  }

  /** In a covered state they are. */
  lemma CoveredTogether(s: Index, hist: History, h: Key -> nat)
    requires Good(s, hist, h) && Covered(s, hist)
    ensures SharersTogether(s, hist)
  {
    forall a, b, c | Share(hist, a, b) && Holds(s, c, a) ensures Holds(s, c, b) {
      var k :| k in hist[a] && k in hist[b];
      assert Occurrences(s.clusters, b) == 1;
      var d := OccursHeld(s.clusters, b);
      assert Holds(s, d, b);
      assert !Unregistered(s, hist, c, a, k) && !Unregistered(s, hist, d, b, k);
      assert Registers(s, c, k) && Registers(s, d, k);
    }
  }

  lemma {:induction false} ChainSameCluster(s: Index, hist: History, p: seq<Record>, c: nat)
    requires SharersTogether(s, hist) && Chain(hist, p) && Holds(s, c, p[0])
    ensures Holds(s, c, p[|p| - 1])
    decreases |p|
  {
    if |p| > 1 {
      assert Share(hist, p[0], p[1]);
      var r := p[1..];
      forall i | 0 <= i < |r| - 1 ensures Share(hist, r[i], r[i + 1]) {
        assert Share(hist, p[i + 1], p[i + 2]);
      }
      ChainSameCluster(s, hist, r, c);
    }
  }

  /** The clusters are the components exactly when records that share a key are
      together. */
  lemma TogetherIsExact(s: Index, hist: History, h: Key -> nat)
    requires Good(s, hist, h)
    ensures Exact(s, hist) <==> SharersTogether(s, hist)
  {
    if SharersTogether(s, hist) {
      forall a, b | a in hist && b in hist ensures Linked(hist, a, b) <==> SameCluster(s, a, b) {
        if Linked(hist, a, b) {
          var p :| Chain(hist, p) && p[0] == a && p[|p| - 1] == b;
          assert Occurrences(s.clusters, a) == 1;
          var c := OccursHeld(s.clusters, a);
          assert Holds(s, c, a);
          ChainSameCluster(s, hist, p, c);
        }
      }
    }
    if Exact(s, hist) {
      forall a, b, c | Share(hist, a, b) && Holds(s, c, a) ensures Holds(s, c, b) {
        LinkedRefl(hist, a);
        LinkedStep(hist, a, a, b);
        var d :| Holds(s, d, a) && Holds(s, d, b);
        NotInTwo(s, hist, c, d, a);
      }
    }
  }

  /** In a covered state the live clusters are the connected components. */
  lemma CoveredIsExact(s: Index, hist: History, h: Key -> nat)
    requires Good(s, hist, h) && Covered(s, hist)
    ensures Exact(s, hist)
  {
    CoveredTogether(s, hist, h);
    TogetherIsExact(s, hist, h);
  }

  /** Some record in cluster `x` carries key `k`, registered there or not. */
  ghost predicate CarriedIn(s: Index, hist: History, x: nat, k: Key)
  {
    exists r :: Carries(s, hist, x, r, k)
  }

  /** Every live cluster in which some record carries one of the keys registers one of
      them. */
  ghost predicate CarriersMeet(s: Index, hist: History, keys: seq<Key>)
  {
    forall x, k :: k in keys && CarriedIn(s, hist, x, k) ==> Meets(s, keys, x)
  }

  /** Where the new record's keys meet all their carriers, sharers stay together. */
  lemma SharersStay(s: Index, hist: History, h: Key -> nat, same: (Record, Record) -> bool, rec: Record, keys: seq<Key>,
                    a: Record, b: Record, x: nat)
    requires Good(s, hist, h) && SharersTogether(s, hist) && keys != [] && rec !in hist
    requires Insert(s, h, same, rec, keys).Accepted?
    requires var Accepted(t, c) := Insert(s, h, same, rec, keys);
      CarriersMeet(s, hist, keys) && Share(hist[rec := keys], a, b) && Holds(t, x, a)
    ensures Holds(Insert(s, h, same, rec, keys).state, x, b)
  {
    hide Insert;
    var c := Insert(s, h, same, rec, keys).cluster;
    AbsorbedBefore(s, h, same, rec, keys);
    HoldsBefore(s, h, same, rec, keys, x, a);
    HoldsBefore(s, h, same, rec, keys, x, b);
    assert forall y :: !Holds(s, y, rec);
    if a == rec && b != rec {
      var k :| k in keys && k in hist[b];
      assert Occurrences(s.clusters, b) == 1;
      var y := OccursHeld(s.clusters, b);
      assert Carries(s, hist, y, b, k) && CarriedIn(s, hist, y, k);
      assert Meets(s, keys, y);
    } else if a != rec && b == rec {
      var k :| k in keys && k in hist[a];
      assert Carries(s, hist, x, a, k) ==> CarriedIn(s, hist, x, k) && Meets(s, keys, x);
    } else if a != rec {
      assert Share(hist, a, b);
    }
  }

  /** While the clusters are the connected components, an accepted insertion keeps them so
      exactly when every cluster with a record that carries one of the new record's keys
      registers one of them. */
  lemma ExactExactly(s: Index, hist: History, h: Key -> nat, same: (Record, Record) -> bool, rec: Record, keys: seq<Key>)
    requires Good(s, hist, h) && Exact(s, hist) && keys != [] && rec !in hist
    requires Insert(s, h, same, rec, keys).Accepted?
    ensures Exact(Insert(s, h, same, rec, keys).state, hist[rec := keys]) <==> CarriersMeet(s, hist, keys)
  {
    hide Insert;
    var Accepted(t, c) := Insert(s, h, same, rec, keys);
    var hist' := hist[rec := keys];
    StepKeepsGood(s, hist, h, same, Input(rec, keys));
    TogetherIsExact(s, hist, h);
    TogetherIsExact(t, hist', h);
    HoldsBefore(s, h, same, rec, keys, c, rec);
    if CarriersMeet(s, hist, keys) {
      forall a, b, x | Share(hist', a, b) && Holds(t, x, a) ensures Holds(t, x, b) {
        SharersStay(s, hist, h, same, rec, keys, a, b, x);
      }
    }
    if SharersTogether(t, hist') {
      AbsorbedBefore(s, h, same, rec, keys);
      forall x, k | k in keys && CarriedIn(s, hist, x, k) ensures Meets(s, keys, x) {
        var r :| Carries(s, hist, x, r, k);
        assert Share(hist', rec, r) && Holds(t, c, rec);
        HoldsBefore(s, h, same, rec, keys, c, r);
        if Holds(s, c, r) {
          NotInTwo(s, hist, x, c, r);
        } else {
          var y :| Touched(s, c, keys, y) && Holds(s, y, r);
          NotInTwo(s, hist, x, y, r);
        }
      }
    }
  }

  lemma NotInTwo(s: Index, hist: History, c: nat, d: nat, r: Record)
    requires Partitioned(s, hist) && Holds(s, c, r) && Holds(s, d, r)
    ensures c == d
  {
    if c < d {
      HeldOnce(s.clusters, c, d, r);
    } else if d < c {
      HeldOnce(s.clusters, d, c, r);
    }
  }

  /** If a record carries a key that nobody registers, a further record with just
      that key goes to a cluster of its own although the two share the key. */
  lemma LooseKeyBreaks(s: Index, hist: History, h: Key -> nat, same: (Record, Record) -> bool, rec: Record,
                       c: nat, r: Record, k: Key)
    requires Good(s, hist, h) && rec !in hist
    requires Unregistered(s, hist, c, r, k) && !Registered(s, k)
    ensures var o := Insert(s, h, same, rec, [k]);
      o.Accepted? && !Exact(o.state, hist[rec := [k]])
  {
    var e := InsertCreates(s, h, same, rec, [k]);
    InsertMeaning(s, h, same, rec, [k]);
    var Accepted(t, n) := Insert(s, h, same, rec, [k]);
    var hist' := hist[rec := [k]];
    LinkedRefl(hist', r);
    assert k in hist'[r] && k in hist'[rec];
    assert Share(hist', r, rec);
    LinkedStep(hist', r, r, rec);
    if SameCluster(t, r, rec) {
      var x :| Holds(t, x, r) && Holds(t, x, rec);
      HoldsBefore(s, h, same, rec, [k], x, r);
      HoldsBefore(s, h, same, rec, [k], x, rec);
    }
  }

  /** In a state that is not covered the clusters can still be the components, but
      then one more record with a single key is enough to make them differ. */
  lemma UncoveredBreaks(s: Index, hist: History, h: Key -> nat, same: (Record, Record) -> bool, rec: Record)
      returns (k: Key)
    requires Good(s, hist, h) && !Covered(s, hist) && Exact(s, hist) && rec !in hist
    ensures var o := Insert(s, h, same, rec, [k]);
      o.Accepted? && !Exact(o.state, hist[rec := [k]])
  {
    var c, r, k0 :| Unregistered(s, hist, c, r, k0);
    k := k0;
    if Registered(s, k) {
      var d :| Registers(s, d, k);
      var q :| Carries(s, hist, d, q, k);
      LinkedRefl(hist, r);
      assert Share(hist, r, q);
      LinkedStep(hist, r, r, q);
      var e :| Holds(s, e, r) && Holds(s, e, q);
      NotInTwo(s, hist, c, e, r);
      NotInTwo(s, hist, d, e, q);
      assert false;
    }
    LooseKeyBreaks(s, hist, h, same, rec, c, r, k);
  }

  /** Every record the run accepts has only known keys when its first one is. */
  ghost predicate Guarded(size: nat, veclen: nat, h: Key -> nat, same: (Record, Record) -> bool, inputs: seq<Input>)
    requires size > 0 && Proper(inputs)
  {
    forall n {:trigger inputs[n]} :: 0 <= n < |inputs| ==>
      var (s, _) := Run(size, veclen, h, same, inputs[..n]);
      Insert(s, h, same, inputs[n].rec, inputs[n].keys).Accepted? ==> AllKnown(s, inputs[n].keys)
  }

  lemma EmptyCovered(size: nat, veclen: nat)
    requires size > 0
    ensures Covered(Empty(size, veclen), map[])
  {
  }

  /** The guard of a run is the guard of the run before, and that of the last step. */
  lemma GuardedLast(size: nat, veclen: nat, h: Key -> nat, same: (Record, Record) -> bool, inputs: seq<Input>)
    requires size > 0 && inputs != [] && Proper(inputs) && Guarded(size, veclen, h, same, inputs)
    ensures var n := |inputs| - 1;
      && Proper(inputs[..n]) && Guarded(size, veclen, h, same, inputs[..n])
      && var (s, hist) := Run(size, veclen, h, same, inputs[..n]);
      && Good(s, hist, h) && inputs[n].rec !in hist
      && (Insert(s, h, same, inputs[n].rec, inputs[n].keys).Accepted? ==> AllKnown(s, inputs[n].keys))
  {
    hide Insert, AllKnown, Good, Run;
    var n := |inputs| - 1;
    forall i | 0 <= i < n ensures inputs[..n][..i] == inputs[..i] && inputs[..n][i] == inputs[i] {
    }
    RunIsGood(size, veclen, h, same, inputs[..n]);
    RunHistory(size, veclen, h, same, inputs[..n]);
  }

  lemma StepCovers(s: Index, hist: History, h: Key -> nat, same: (Record, Record) -> bool, i: Input)
    requires Good(s, hist, h) && i.keys != [] && i.rec !in hist && Covered(s, hist)
    requires Insert(s, h, same, i.rec, i.keys).Accepted? ==> AllKnown(s, i.keys)
    ensures var (t, hist') := Step(s, hist, h, same, i); Covered(t, hist')
  {
    hide Insert, AllKnown, Covered;
    if Insert(s, h, same, i.rec, i.keys).Accepted? {
      InsertCovers(s, hist, h, same, i.rec, i.keys);
    }
  }

  lemma {:induction false} GuardedRunIsCovered(size: nat, veclen: nat, h: Key -> nat,
                                               same: (Record, Record) -> bool, inputs: seq<Input>)
    requires size > 0 && Proper(inputs) && Guarded(size, veclen, h, same, inputs)
    ensures var (s, hist) := Run(size, veclen, h, same, inputs); Covered(s, hist)
  {
    hide Insert, Step, AllKnown, Covered, Guarded, Good;
    if inputs == [] {
      EmptyCovered(size, veclen);
    } else {
      var n := |inputs| - 1;
      GuardedLast(size, veclen, h, same, inputs);
      GuardedRunIsCovered(size, veclen, h, same, inputs[..n]);
      var (s, hist) := Run(size, veclen, h, same, inputs[..n]);
      StepCovers(s, hist, h, same, inputs[n]);
    }
  }

  /** After a guarded run the live clusters are exactly the connected components. */
  lemma GuardedRunIsExact(size: nat, veclen: nat, h: Key -> nat, same: (Record, Record) -> bool, inputs: seq<Input>)
    requires size > 0 && Proper(inputs) && Guarded(size, veclen, h, same, inputs)
    ensures var (s, hist) := Run(size, veclen, h, same, inputs); Exact(s, hist)
  {
    GuardedRunIsCovered(size, veclen, h, same, inputs);
    RunIsGood(size, veclen, h, same, inputs);
    var (s, hist) := Run(size, veclen, h, same, inputs);
    CoveredIsExact(s, hist, h);
  }

  /** Records with a single key never need the guard. */
  lemma SingleKeysAreExact(size: nat, veclen: nat, h: Key -> nat, same: (Record, Record) -> bool, inputs: seq<Input>)
    requires size > 0 && Proper(inputs)
    requires forall i :: 0 <= i < |inputs| ==> |inputs[i].keys| == 1
    ensures var (s, hist) := Run(size, veclen, h, same, inputs); Exact(s, hist)
  {
    GuardedRunIsExact(size, veclen, h, same, inputs);
  }

  /** Three records for which the clusters are not the components, whatever the hash:
      the second joins the cluster of `a` without registering `b`. */
  function LooseInputs(): (r: seq<Input>)
  {
    [Input(Record(0, 0, 1), ["a"]), Input(Record(1, 1, 1), ["a", "b"]), Input(Record(2, 2, 1), ["b"])]
  }

  /** The first record alone: one cluster that registers `a`. */
  lemma LooseFirst(size: nat, veclen: nat, h: Key -> nat, same: (Record, Record) -> bool)
    requires size > 0
    ensures var i := LooseInputs()[0];
      var (s, hist) := Step(Empty(size, veclen), map[], h, same, i);
      && Good(s, hist, h) && hist == map[i.rec := ["a"]]
      && (forall x, k :: Registers(s, x, k) <==> x == 0 && k == "a")
      && (forall x, r :: Holds(s, x, r) <==> x == 0 && r == i.rec)
  {
    var i, s := LooseInputs()[0], Empty(size, veclen);
    EmptyGood(size, veclen, h);
    InsertRejects(s, h, same, i.rec, i.keys);
    InsertMeaning(s, h, same, i.rec, i.keys);
    StepKeepsGood(s, map[], h, same, i);
    var t := Step(s, map[], h, same, i).0;
    forall x, k ensures Registers(t, x, k) <==> x == 0 && k == "a" {
      RegistersBefore(s, h, same, i.rec, i.keys, x, k);
    }
    forall x, r ensures Holds(t, x, r) <==> x == 0 && r == i.rec {
      HoldsBefore(s, h, same, i.rec, i.keys, x, r);
    }
  }

  /** The second record joins it and leaves `b` unregistered. */
  lemma LooseSecond(s: Index, hist: History, h: Key -> nat, same: (Record, Record) -> bool)
    requires Good(s, hist, h) && hist == map[LooseInputs()[0].rec := ["a"]]
    requires forall x, k :: Registers(s, x, k) <==> x == 0 && k == "a"
    requires forall x, r :: Holds(s, x, r) <==> x == 0 && r == LooseInputs()[0].rec
    ensures var i := LooseInputs()[1];
      var (t, hist') := Step(s, hist, h, same, i);
      && Good(t, hist', h) && hist' == hist[i.rec := i.keys]
      && !Registered(t, "b") && Unregistered(t, hist', 0, i.rec, "b")
  {
    var i := LooseInputs()[1];
    assert "b" in i.keys by { assert i.keys[1] == "b"; }
    assert Registers(s, 0, "a");
    InsertRejects(s, h, same, i.rec, i.keys);
    forall c: nat, r | Registers(s, c, "a") && r in s.clusters[c].records ensures r.client != i.rec.client {
      assert Holds(s, 0, r);
    }
    InsertMeaning(s, h, same, i.rec, i.keys);
    StepKeepsGood(s, hist, h, same, i);
    var (t, hist') := Step(s, hist, h, same, i);
    forall x ensures !Registers(t, x, "b") {
      RegistersBefore(s, h, same, i.rec, i.keys, x, "b");
    }
    HoldsBefore(s, h, same, i.rec, i.keys, 0, i.rec);
  }

  /** Inserting the three records one after the other into an empty list leaves two
      records that share `b` in different clusters. */
  lemma LooseInputsBreak(size: nat, veclen: nat, h: Key -> nat, same: (Record, Record) -> bool)
    requires size > 0
    ensures var (s1, hist1) := Step(Empty(size, veclen), map[], h, same, LooseInputs()[0]);
      var (s2, hist2) := Step(s1, hist1, h, same, LooseInputs()[1]);
      var (s3, hist3) := Step(s2, hist2, h, same, LooseInputs()[2]);
      !Exact(s3, hist3)
  {
    var (s1, hist1) := Step(Empty(size, veclen), map[], h, same, LooseInputs()[0]);
    LooseFirst(size, veclen, h, same);
    LooseRest(s1, hist1, h, same);
  }

  lemma LooseRest(s: Index, hist: History, h: Key -> nat, same: (Record, Record) -> bool)
    requires Good(s, hist, h) && hist == map[LooseInputs()[0].rec := ["a"]]
    requires forall x, k :: Registers(s, x, k) <==> x == 0 && k == "a"
    requires forall x, r :: Holds(s, x, r) <==> x == 0 && r == LooseInputs()[0].rec
    ensures var (s2, hist2) := Step(s, hist, h, same, LooseInputs()[1]);
      var (s3, hist3) := Step(s2, hist2, h, same, LooseInputs()[2]);
      !Exact(s3, hist3)
  {
    var (s2, hist2) := Step(s, hist, h, same, LooseInputs()[1]);
    LooseSecond(s, hist, h, same);
    LooseThird(s2, hist2, h, same);
  }

  lemma LooseThird(s: Index, hist: History, h: Key -> nat, same: (Record, Record) -> bool)
    requires Good(s, hist, h) && LooseInputs()[2].rec !in hist
    requires Unregistered(s, hist, 0, LooseInputs()[1].rec, "b") && !Registered(s, "b")
    ensures var (t, hist') := Step(s, hist, h, same, LooseInputs()[2]); !Exact(t, hist')
  {
    LooseKeyBreaks(s, hist, h, same, LooseInputs()[2].rec, 0, LooseInputs()[1].rec, "b");
  }
}
