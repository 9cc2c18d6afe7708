/** Which records are taken for repeats: in every run an accepted record is rejected when it
    comes again, and no record is rejected that its cluster does not have. */
module ClusterRepeats {
  import opened ClusterIndex
  import opened ClusterInvariant
  import opened ClusterInsert
  import opened ClusterLinks

  /** A record is accepted if the cluster of its first key has no record of its client, or
      none that `same` takes for it. */
  lemma DifferentIsAccepted(s: Index, h: Key -> nat, same: (Record, Record) -> bool, rec: Record, keys: seq<Key>)
    requires Consistent(s, h) && keys != []
    requires forall c: nat, r :: Registers(s, c, keys[0]) && r in s.clusters[c].records ==>
      r.client != rec.client || !same(rec, r)
    ensures Insert(s, h, same, rec, keys).Accepted?
  {
    hide Insert;
    InsertRejects(s, h, same, rec, keys);
  }

  /** Every accepted record is in a live cluster that registers the record's first key. */
  ghost predicate FirstKeysHeld(s: Index, hist: History)
  {
    forall r :: r in hist ==> hist[r] != [] && HeldByKey(s, r, hist[r][0])
  }

  ghost predicate HeldByKey(s: Index, r: Record, k: Key)
  {
    exists c :: Holds(s, c, r) && Registers(s, c, k)
  }

  lemma NewIsHeld(s: Index, h: Key -> nat, same: (Record, Record) -> bool, rec: Record, keys: seq<Key>)
    requires Consistent(s, h) && keys != []
    requires Insert(s, h, same, rec, keys).Accepted?
    ensures HeldByKey(Insert(s, h, same, rec, keys).state, rec, keys[0])
  {
    hide Insert;
    var Accepted(t, c) := Insert(s, h, same, rec, keys);
    InsertMeaning(s, h, same, rec, keys);
    HoldsBefore(s, h, same, rec, keys, c, rec);
    RegistersBefore(s, h, same, rec, keys, c, keys[0]);
    assert Holds(t, c, rec) && Registers(t, c, keys[0]);
  }

  /** A merge moves a record and its key together. */
  lemma StaysHeld(s: Index, h: Key -> nat, same: (Record, Record) -> bool, rec: Record, keys: seq<Key>,
                  r: Record, k: Key)
    requires Consistent(s, h) && keys != [] && HeldByKey(s, r, k)
    requires Insert(s, h, same, rec, keys).Accepted?
    ensures HeldByKey(Insert(s, h, same, rec, keys).state, r, k)
  {
    hide Insert;
    var Accepted(t, c) := Insert(s, h, same, rec, keys);
    var x :| Holds(s, x, r) && Registers(s, x, k);
    var y := if Touched(s, c, keys, x) then c else x;
    HoldsBefore(s, h, same, rec, keys, y, r);
    RegistersBefore(s, h, same, rec, keys, y, k);
    assert Holds(t, y, r) && Registers(t, y, k);
  }

  lemma {:induction false} RunHoldsFirstKeys(size: nat, veclen: nat, h: Key -> nat, same: (Record, Record) -> bool,
                                             inputs: seq<Input>)
    requires size > 0 && Proper(inputs)
    ensures var (s, hist) := Run(size, veclen, h, same, inputs); FirstKeysHeld(s, hist)
  {
    hide Insert, Good, HeldByKey;
    if inputs != [] {
      var n := |inputs| - 1;
      var i := inputs[n];
      RunHoldsFirstKeys(size, veclen, h, same, inputs[..n]);
      RunConsistent(size, veclen, h, same, inputs[..n]);
      var (s, hist) := Run(size, veclen, h, same, inputs[..n]);
      if Insert(s, h, same, i.rec, i.keys).Accepted? {
        NewIsHeld(s, h, same, i.rec, i.keys);
        forall r | r in hist && r != i.rec ensures HeldByKey(Insert(s, h, same, i.rec, i.keys).state, r, hist[r][0]) {
          StaysHeld(s, h, same, i.rec, i.keys, r, hist[r][0]);
        }
      }
    }
  }

  lemma RunConsistent(size: nat, veclen: nat, h: Key -> nat, same: (Record, Record) -> bool, inputs: seq<Input>)
    requires size > 0 && Proper(inputs)
    ensures Consistent(Run(size, veclen, h, same, inputs).0, h)
  {
    RunIsGood(size, veclen, h, same, inputs);
  }

  /** After any run, a record that was accepted is rejected when it comes again with the
      same first key, whatever has been merged since, and nothing changes. */
  lemma AcceptedOnce(size: nat, veclen: nat, h: Key -> nat, same: (Record, Record) -> bool, inputs: seq<Input>,
                     again: Input)
    requires size > 0 && Proper(inputs)
    requires var (_, hist) := Run(size, veclen, h, same, inputs);
      again.rec in hist && again.keys != [] && hist[again.rec] != [] && again.keys[0] == hist[again.rec][0]
    requires same(again.rec, again.rec)
    ensures var (s, hist) := Run(size, veclen, h, same, inputs);
      Insert(s, h, same, again.rec, again.keys).Duplicate? && Step(s, hist, h, same, again) == (s, hist)
  {
    hide Insert, Good, Run;
    RunHoldsFirstKeys(size, veclen, h, same, inputs);
    RunConsistent(size, veclen, h, same, inputs);
    var (s, hist) := Run(size, veclen, h, same, inputs);
    InsertRejects(s, h, same, again.rec, again.keys);
    assert HeldByKey(s, again.rec, again.keys[0]);
    var c :| Holds(s, c, again.rec) && Registers(s, c, again.keys[0]);
  }

  /** Two editions from one target, with one key: both are kept, in one cluster. */
  lemma TwoEditions(size: nat, veclen: nat, h: Key -> nat, same: (Record, Record) -> bool,
                    a: Record, b: Record, k: Key)
    requires size > 0 && a != b && !same(b, a)
    ensures var (s, hist) := Step(Empty(size, veclen), map[], h, same, Input(a, [k]));
      var (t, hist') := Step(s, hist, h, same, Input(b, [k]));
      hist' == map[a := [k], b := [k]] && SameCluster(t, a, b)
  {
    hide Insert;
    var s0 := Empty(size, veclen);
    EmptyGood(size, veclen, h);
    assert forall x, y :: !Registers(s0, x, y) && forall r :: !Holds(s0, x, r);
    DifferentIsAccepted(s0, h, same, a, [k]);
    var Accepted(s, c) := Insert(s0, h, same, a, [k]);
    InsertMeaning(s0, h, same, a, [k]);
    NewIsHeld(s0, h, same, a, [k]);
    forall x: nat, r | Registers(s, x, k) && r in s.clusters[x].records ensures r == a {
      assert Holds(s, x, r);
      HoldsBefore(s0, h, same, a, [k], x, r);
    }
    DifferentIsAccepted(s, h, same, b, [k]);
    StaysHeld(s, h, same, b, [k], a, k);
    NewIsHeld(s, h, same, b, [k]);
    InsertMeaning(s, h, same, b, [k]);
    OneCluster(Insert(s, h, same, b, [k]).state, h, a, b, k);
  }

  lemma OneCluster(s: Index, h: Key -> nat, a: Record, b: Record, k: Key)
    requires Consistent(s, h) && HeldByKey(s, a, k) && HeldByKey(s, b, k)
    ensures SameCluster(s, a, b)
  {
    var c :| Holds(s, c, a) && Registers(s, c, k);
    var d :| Holds(s, d, b) && Registers(s, d, k);
    assert c == d;
  }
}
