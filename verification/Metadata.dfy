/** The metadata of one cluster, built up as its records arrive: each field has a merge
    policy, and some fields feed a sort key. */
module Metadata {
  import opened Wrappers

  datatype Policy = MergeNo | MergeUnique | MergeLongest | MergeRange | MergeAll | MergeFirst

  datatype Value = Text(disp: string, norm: string) | Number(min: int, max: int)
  {
    function Norm(): string {
      if Text? then norm else ""
    }
  }

  /** A metadata element of a record. `field` is negative for a type the service does not
      have, and `value` is `None` where no value can be made of the element's text. */
  datatype Element = Element(field: int, value: Option<Value>)

  /** A field's policy and the sort key it feeds, if any. */
  datatype Field = Field(policy: Policy, sortKey: Option<nat>)

  /** The policies that compare text need text, and a range needs numbers. */
  predicate Suits(p: Policy, v: Value)
  {
    (p == MergeUnique || p == MergeLongest ==> v.Text?) && (p == MergeRange ==> v.Number?)
  }

  // ----- Merging as records arrive -------------------------------------------

  /** What one value does to a field. `fresh0` says that the cluster had no value of this
      field when the record arrived. */
  function Step(p: Policy, fresh0: bool, cur: seq<Value>, v: Value): seq<Value>
  {
    match p
    case MergeNo => cur
    case MergeFirst => if fresh0 then cur + [v] else cur
    case MergeUnique => if HasNorm(cur, v.Norm()) then cur else cur + [v]
    case MergeLongest => if cur == [] || |v.Norm()| > |cur[0].Norm()| then [v] else cur
    case MergeAll => cur + [v]
    case MergeRange =>
      if cur == [] then [v]
      else if !cur[0].Number? || !v.Number? then cur
      else [Number(if v.min < cur[0].min then v.min else cur[0].min,
                   if v.max > cur[0].max then v.max else cur[0].max)] + cur[1..]
  }

  predicate HasNorm(vs: seq<Value>, norm: string)
  {
    exists i :: 0 <= i < |vs| && vs[i].Norm() == norm
  }

  /** One record's values of a field, in order. */
  function Take(p: Policy, fresh0: bool, cur: seq<Value>, vs: seq<Value>): seq<Value>
  {
    if vs == [] then cur
    else Step(p, fresh0, Take(p, fresh0, cur, vs[..|vs| - 1]), vs[|vs| - 1])
  }

  /** The field after all records. */
  function Online(p: Policy, records: seq<seq<Value>>): seq<Value>
  {
    if records == [] then []
    else
      var cur := Online(p, records[..|records| - 1]);
      Take(p, cur == [], cur, records[|records| - 1])
  }

  // ----- What each policy means ----------------------------------------------

  function Concat(records: seq<seq<Value>>): seq<Value>
  {
    if records == [] then [] else Concat(records[..|records| - 1]) + records[|records| - 1]
  }

  /** All values of the first record that has any. */
  function FirstSupplied(records: seq<seq<Value>>): seq<Value>
  {
    if records == [] then []
    else if records[0] != [] then records[0]
    else FirstSupplied(records[1..])
  }

  /** The values that have no earlier value of the same norm. */
  function FirstOfEachNorm(vs: seq<Value>): seq<Value>
  {
    if vs == [] then []
    else
      var n := |vs| - 1;
      FirstOfEachNorm(vs[..n]) + if HasNorm(vs[..n], vs[n].Norm()) then [] else [vs[n]]
  }

  /** `r` holds the earliest of the longest values. */
  ghost predicate EarliestLongest(vs: seq<Value>, r: seq<Value>)
  {
    if vs == [] then r == []
    else exists k :: 0 <= k < |vs| && IsEarliestLongest(vs, k) && r == [vs[k]]
  }

  ghost predicate IsEarliestLongest(vs: seq<Value>, k: nat)
    requires k < |vs|
  {
    forall i :: 0 <= i < |vs| ==>
      |vs[i].Norm()| <= |vs[k].Norm()| && (i < k ==> |vs[i].Norm()| < |vs[k].Norm()|)
  }

  /** `r` holds the least of the minima and the greatest of the maxima. */
  ghost predicate Span(vs: seq<Value>, r: seq<Value>)
    requires forall i :: 0 <= i < |vs| ==> vs[i].Number?
  {
    if vs == [] then r == []
    else
      && |r| == 1 && r[0].Number?
      && (forall i :: 0 <= i < |vs| ==> r[0].min <= vs[i].min && vs[i].max <= r[0].max)
      && (exists i :: 0 <= i < |vs| && vs[i].min == r[0].min)
      && (exists i :: 0 <= i < |vs| && vs[i].max == r[0].max)
  }

  ghost predicate Batch(p: Policy, records: seq<seq<Value>>, r: seq<Value>)
    requires forall v :: v in Concat(records) ==> Suits(p, v)
  {
    match p
    case MergeNo => r == []
    case MergeFirst => r == FirstSupplied(records)
    case MergeUnique => r == FirstOfEachNorm(Concat(records))
    case MergeLongest => EarliestLongest(Concat(records), r)
    case MergeAll => r == Concat(records)
    case MergeRange => SpanOfRecords(records, r)
  }

  ghost predicate SpanOfRecords(records: seq<seq<Value>>, r: seq<Value>)
    requires forall v :: v in Concat(records) ==> Suits(MergeRange, v)
  {
    var vs := Concat(records);
    assert forall i :: 0 <= i < |vs| ==> vs[i] in vs && Suits(MergeRange, vs[i]);
    Span(vs, r)
  }

  // ----- The two agree -------------------------------------------------------

  lemma {:induction false} TakeConcat(p: Policy, f: bool, cur: seq<Value>, a: seq<Value>, b: seq<Value>)
    ensures Take(p, f, Take(p, f, cur, a), b) == Take(p, f, cur, a + b)
  {
    if b == [] {
      assert a + b == a;
    } else {
      var n := |b| - 1;
      TakeConcat(p, f, cur, a, b[..n]);
      assert (a + b)[..|a + b| - 1] == a + b[..n];
    }
  }

  lemma {:induction false} FlagIgnored(p: Policy, f: bool, g: bool, cur: seq<Value>, vs: seq<Value>)
    requires p != MergeFirst
    ensures Take(p, f, cur, vs) == Take(p, g, cur, vs)
  {
    if vs != [] { FlagIgnored(p, f, g, cur, vs[..|vs| - 1]); }
  }

  /** Where one record ends and the next begins matters to no policy but `MergeFirst`. */
  lemma {:induction false} OnlineIsOneTake(p: Policy, records: seq<seq<Value>>)
    requires p != MergeFirst
    ensures Online(p, records) == Take(p, true, [], Concat(records))
  {
    if records != [] {
      var n := |records| - 1;
      OnlineIsOneTake(p, records[..n]);
      var cur := Online(p, records[..n]);
      FlagIgnored(p, cur == [], true, cur, records[n]);
      TakeConcat(p, true, [], Concat(records[..n]), records[n]);
    }
  }

  lemma {:induction false} TakeAll(p: Policy, f: bool, cur: seq<Value>, vs: seq<Value>)
    requires p == MergeAll || (p == MergeFirst && f)
    ensures Take(p, f, cur, vs) == cur + vs
  {
    if vs != [] {
      TakeAll(p, f, cur, vs[..|vs| - 1]);
      assert vs == vs[..|vs| - 1] + [vs[|vs| - 1]];
    }
  }

  lemma {:induction false} TakeNone(p: Policy, f: bool, cur: seq<Value>, vs: seq<Value>)
    requires p == MergeNo || (p == MergeFirst && !f)
    ensures Take(p, f, cur, vs) == cur
  {
    if vs != [] { TakeNone(p, f, cur, vs[..|vs| - 1]); }
  }

  /** The kept values have the norms of all values seen. */
  lemma {:induction false} TakeUnique(vs: seq<Value>)
    ensures Take(MergeUnique, true, [], vs) == FirstOfEachNorm(vs)
    ensures forall norm :: HasNorm(FirstOfEachNorm(vs), norm) <==> HasNorm(vs, norm)
  {
    if vs != [] {
      var n := |vs| - 1;
      TakeUnique(vs[..n]);
      assert vs == vs[..n] + [vs[n]];
      FirstSnoc(vs);
      forall norm ensures HasNorm(FirstOfEachNorm(vs), norm) <==> HasNorm(vs, norm) {
        NormSnoc(vs[..n], vs[n], norm);
        NormSnoc(FirstOfEachNorm(vs[..n]), vs[n], norm);
      }
    }
  }

  lemma FirstSnoc(vs: seq<Value>)
    requires vs != []
    ensures var front, v := vs[..|vs| - 1], vs[|vs| - 1];
      FirstOfEachNorm(vs)
      == if HasNorm(front, v.Norm()) then FirstOfEachNorm(front) else FirstOfEachNorm(front) + [v]
  {
    var front := vs[..|vs| - 1];
    assert FirstOfEachNorm(front) + [] == FirstOfEachNorm(front);
  }

  lemma NormSnoc(vs: seq<Value>, v: Value, norm: string)
    ensures HasNorm(vs + [v], norm) <==> HasNorm(vs, norm) || v.Norm() == norm
  {
    var more := vs + [v];
    assert more[|vs|] == v;
    assert forall i :: 0 <= i < |vs| ==> more[i] == vs[i];
    if HasNorm(vs, norm) {
      var i :| 0 <= i < |vs| && vs[i].Norm() == norm;
      assert more[i].Norm() == norm;
    }
  }

  lemma {:induction false} TakeLongest(vs: seq<Value>) returns (k: nat)
    ensures vs == [] ==> Take(MergeLongest, true, [], vs) == []
    ensures vs != [] ==>
      && k < |vs| && IsEarliestLongest(vs, k)
      && Take(MergeLongest, true, [], vs) == [vs[k]]
  {
    k := 0;
    if vs != [] {
      var n := |vs| - 1;
      var front := vs[..n];
      assert forall i :: 0 <= i < n ==> front[i] == vs[i];
      k := TakeLongest(front);
      if front == [] || |vs[n].Norm()| > |front[k].Norm()| {
        k := n;
      }
    }
  }

  lemma {:induction false} TakeRange(vs: seq<Value>)
    requires forall i :: 0 <= i < |vs| ==> vs[i].Number?
    ensures Span(vs, Take(MergeRange, true, [], vs))
  {
    if vs != [] {
      var n := |vs| - 1;
      var front := vs[..n];
      assert forall i :: 0 <= i < n ==> front[i] == vs[i];
      TakeRange(front);
      var r, c := Take(MergeRange, true, [], vs), Take(MergeRange, true, [], front);
      if front != [] {
        var i :| 0 <= i < |front| && front[i].min == c[0].min;
        var j :| 0 <= j < |front| && front[j].max == c[0].max;
        assert vs[if vs[n].min < c[0].min then n else i].min == r[0].min;
        assert vs[if vs[n].max > c[0].max then n else j].max == r[0].max;
      }
    }
  }

  lemma {:induction false} FirstSuppliedSnoc(records: seq<seq<Value>>, r: seq<Value>)
    ensures FirstSupplied(records + [r]) == if FirstSupplied(records) == [] then r else FirstSupplied(records)
  {
    if records == [] {
      assert (records + [r])[1..] == [];
    } else {
      FirstSuppliedSnoc(records[1..], r);
      assert (records + [r])[1..] == records[1..] + [r];
    }
  }

  lemma {:induction false} OnlineFirst(records: seq<seq<Value>>)
    ensures Online(MergeFirst, records) == FirstSupplied(records)
  {
    if records != [] {
      var n := |records| - 1;
      OnlineFirst(records[..n]);
      var cur := Online(MergeFirst, records[..n]);
      FirstSuppliedSnoc(records[..n], records[n]);
      assert records == records[..n] + [records[n]];
      if cur == [] {
        TakeAll(MergeFirst, true, cur, records[n]);
      } else {
        TakeNone(MergeFirst, false, cur, records[n]);
      }
    }
  }

  /** For every policy and every sequence of records, merging as records arrive gives
      what the policy means over all of them at once. */
  lemma OnlineIsBatch(p: Policy, records: seq<seq<Value>>)
    requires forall v :: v in Concat(records) ==> Suits(p, v)
    ensures Batch(p, records, Online(p, records))
  {
    var vs := Concat(records);
    if p == MergeFirst {
      OnlineFirst(records);
    } else {
      OnlineIsOneTake(p, records);
      match p
      case MergeNo => TakeNone(p, true, [], vs);
      case MergeAll => TakeAll(p, true, [], vs);
      case MergeUnique => TakeUnique(vs);
      case MergeLongest => var k := TakeLongest(vs);
      case MergeRange =>
        assert forall i :: 0 <= i < |vs| ==> vs[i] in vs;
        TakeRange(vs);
    }
  }

  /** No two kept values have one norm, and a value is kept where its norm first comes. */
  lemma UniqueByNorm(records: seq<seq<Value>>)
    requires forall v :: v in Concat(records) ==> v.Text?
    ensures var vs, r := Concat(records), Online(MergeUnique, records);
      NormsApart(r) && forall v :: v in r <==> IsFirstOfNorm(vs, v)
  {
    hide FirstOfEachNorm, Concat, IsFirstOfNorm, NormsApart;
    OnlineIsOneTake(MergeUnique, records);
    TakeUnique(Concat(records));
    FirstsByNorm(Concat(records));
  }

  /** Somewhere in the list is the text `v`, and no text of that norm before it. */
  ghost predicate IsFirstOfNorm(vs: seq<Value>, v: Value)
  {
    v.Text? && exists i :: 0 <= i < |vs| && vs[i] == v && NormIsNew(vs, i, v.norm)
  }

  ghost predicate NormIsNew(vs: seq<Value>, i: nat, norm: string)
    requires i <= |vs|
  {
    forall j :: 0 <= j < i && vs[j].Text? ==> vs[j].norm != norm
  }

  /** All values are texts, no two of the same norm. */
  ghost predicate NormsApart(r: seq<Value>)
  {
    (forall v :: v in r ==> v.Text?) && forall i, j :: 0 <= i < j < |r| ==> r[i].norm != r[j].norm
  }

  lemma ApartSnoc(r: seq<Value>, v: Value)
    requires NormsApart(r) && v.Text? && forall w :: w in r ==> w.norm != v.norm
    ensures NormsApart(r + [v])
  {
  }

  lemma {:induction false} FirstsByNorm(vs: seq<Value>)
    requires forall v :: v in vs ==> v.Text?
    ensures var r := FirstOfEachNorm(vs);
      NormsApart(r) && forall v :: v in r <==> IsFirstOfNorm(vs, v)
  {
    hide IsFirstOfNorm, HasNorm;
    if vs == [] {
      NoFirst();
    } else {
      var n := |vs| - 1;
      var v, front := vs[n], vs[..n];
      assert vs == front + [v];
      FirstsByNorm(front);
      FirstSnoc(vs);
      assert v in vs;
      HasNormMeaning(front, v.norm);
      forall w ensures IsFirstOfNorm(vs, w) <==> IsFirstOfNorm(front, w) || (w == v && !HasNorm(front, v.norm)) {
        FirstOfNormSnoc(front, v, w);
      }
      var past := FirstOfEachNorm(front);
      if !HasNorm(front, v.norm) {
        forall w | w in past ensures w.norm != v.norm {
          FirstIsIn(front, w);
        }
        ApartSnoc(past, v);
      }
    }
  }

  lemma NoFirst()
    ensures forall v :: !IsFirstOfNorm([], v)
  {
  }

  lemma HasNormMeaning(vs: seq<Value>, norm: string)
    requires forall v :: v in vs ==> v.Text?
    ensures HasNorm(vs, norm) <==> exists v :: v in vs && v.norm == norm
  {
    if v :| v in vs && v.norm == norm {
      var i :| 0 <= i < |vs| && vs[i] == v;
      assert vs[i].Norm() == norm;
    }
  }

  lemma FirstIsIn(vs: seq<Value>, v: Value)
    requires IsFirstOfNorm(vs, v)
    ensures v in vs && v.Text?
  {
  }

  lemma FirstOfNormSnoc(front: seq<Value>, v: Value, w: Value)
    requires v.Text? && forall x :: x in front ==> x.Text?
    ensures IsFirstOfNorm(front + [v], w) <==> IsFirstOfNorm(front, w) || (w == v && !HasNorm(front, v.norm))
  {
    var vs, n := front + [v], |front|;
    HasNormMeaning(front, v.norm);
    assert vs[n] == v && forall i :: 0 <= i < n ==> vs[i] == front[i] && front[i] in front;
    if IsFirstOfNorm(front, w) {
      var i :| 0 <= i < |front| && front[i] == w && NormIsNew(front, i, w.norm);
      assert vs[i] == w && NormIsNew(vs, i, w.norm);
    }
  }

  /** The value kept has the longest norm, and is the earliest of such. */
  lemma LongestByNorm(records: seq<seq<Value>>) returns (k: nat)
    requires Concat(records) != [] && forall v :: v in Concat(records) ==> v.Text?
    ensures var vs := Concat(records);
      && k < |vs| && Online(MergeLongest, records) == [vs[k]] && vs[k].Text?
      && (forall i :: 0 <= i < |vs| && vs[i].Text? ==> |vs[i].norm| <= |vs[k].norm|)
      && (forall i :: 0 <= i < k && vs[i].Text? ==> |vs[i].norm| < |vs[k].norm|)
  {
    hide Concat;
    var vs := Concat(records);
    OnlineIsOneTake(MergeLongest, records);
    k := TakeLongest(vs);
    assert forall i :: 0 <= i < |vs| ==> vs[i] in vs;
  }

  // ----- The values a record supplies for a field ----------------------------

  /** The values a record supplies for field `f`, in order. */
  function Supplied(record: seq<Element>, f: nat): seq<Value>
  {
    if record == [] then []
    else
      var n := |record| - 1;
      Supplied(record[..n], f)
      + if record[n].field == f && record[n].value.Some? then [record[n].value.value] else []
  }

  function AllSupplied(records: seq<seq<Element>>, f: nat): seq<seq<Value>>
  {
    seq(|records|, i requires 0 <= i < |records| => Supplied(records[i], f))
  }

  lemma AllSuppliedSnoc(records: seq<seq<Element>>, r: seq<Element>, p: Policy, f: nat)
    ensures var cur := Online(p, AllSupplied(records, f));
      Online(p, AllSupplied(records + [r], f)) == Take(p, cur == [], cur, Supplied(r, f))
  {
    var more := AllSupplied(records + [r], f);
    assert more[..|more| - 1] == AllSupplied(records, f);
  }

  // ----- The cluster ---------------------------------------------------------

  class Node {
    var data: Value

    constructor (v: Value)
      ensures data == v
    {
      data := v;
    }
  }

  /** A sort key is absent, a text of its own, or shares the data of a metadata node. */
  datatype SortKey = NoKey | TextKey(disp: string, sort: string) | SharedKey(node: Node)

  datatype KeyValue = NoValue | TextValue(disp: string, sort: string) | NumberValue(min: int, max: int)

  function Data(nodes: seq<Node>): (r: seq<Value>)
    reads nodes
    ensures |r| == |nodes|
    ensures forall i :: 0 <= i < |nodes| ==> r[i] == nodes[i].data
  {
    seq(|nodes|, i requires 0 <= i < |nodes| reads nodes => nodes[i].data)
  }

  ghost predicate Within(list: seq<Node>, nodes: set<Node>)
  {
    forall i :: 0 <= i < |list| ==> list[i] in nodes
  }

  ghost function AllData(lists: seq<seq<Node>>, nodes: set<Node>): (r: seq<seq<Value>>)
    requires forall f :: 0 <= f < |lists| ==> Within(lists[f], nodes)
    reads nodes
    ensures |r| == |lists|
    ensures forall f :: 0 <= f < |lists| ==> r[f] == Data(lists[f])
  {
    seq(|lists|, f requires 0 <= f < |lists| && Within(lists[f], nodes) reads nodes => Data(lists[f]))
  }

  /** No two fields feed one sort key. */
  ghost predicate KeysApart(fields: seq<Field>)
  {
    forall f, g ::
      (0 <= f < |fields| && 0 <= g < |fields| && fields[f].sortKey.Some?
       && fields[f].sortKey == fields[g].sortKey) ==> f == g
  }

  class Cluster {
    const fields: seq<Field>
    /** The sort form of a text, where the character set rules give one. */
    const sortForm: (nat, string) -> Option<string>
    var metadata: seq<seq<Node>>
    var sortkeys: seq<SortKey>
    /** The field each node belongs to. */
    ghost var owner: map<Node, nat>
    ghost var history: seq<seq<Element>>

    function SortText(k: nat, disp: string): string
    {
      match sortForm(k, disp)
      case Some(s) => s
      case None => disp
    }

    /** Every node belongs to one field, a range has at most one, and each sort key goes
        with its field. */
    ghost predicate Shape()
      reads this`metadata, this`sortkeys, this`owner, owner.Keys
    {
      && |metadata| == |fields| && KeysApart(fields)
      && (forall f :: 0 <= f < |fields| ==> FieldShape(f, metadata[f]))
    }

    ghost predicate FieldShape(f: nat, list: seq<Node>)
      requires f < |fields|
      reads this`metadata, this`sortkeys, this`owner, owner.Keys
    {
      && (forall i :: 0 <= i < |list| ==>
            list[i] in owner && owner[list[i]] == f && Suits(fields[f].policy, list[i].data))
      && (fields[f].policy == MergeRange ==> |list| <= 1)
      && (fields[f].sortKey.Some? ==>
            fields[f].sortKey.value < |sortkeys|
            && KeyGoesWith(fields[f].sortKey.value, fields[f].policy, list))
    }

    ghost predicate KeyGoesWith(k: nat, p: Policy, list: seq<Node>)
      requires k < |sortkeys|
      reads this`sortkeys, list
    {
      if list == [] then sortkeys[k] == NoKey
      else if p == MergeRange then sortkeys[k] == SharedKey(list[0])
      else if p == MergeLongest then
        list[0].data.Text?
        && sortkeys[k] == TextKey(list[0].data.disp, SortText(k, list[0].data.disp))
      else sortkeys[k] == NoKey
    }

    /** The values of every field. */
    ghost function Views(): (r: seq<seq<Value>>)
      requires Shape()
      reads this`metadata, this`sortkeys, this`owner, owner.Keys
      ensures |r| == |fields|
      ensures forall f :: 0 <= f < |fields| ==> r[f] == Data(metadata[f])
    {
      assert forall f :: 0 <= f < |fields| ==>
        FieldShape(f, metadata[f]) && Within(metadata[f], owner.Keys);
      AllData(metadata, owner.Keys)
    }

    ghost predicate Valid()
      reads this, owner.Keys
    {
      Shape() && Views() == AllOnline(fields, history)
    }

    constructor (fields: seq<Field>, keys: nat, sortForm: (nat, string) -> Option<string>)
      requires forall f :: 0 <= f < |fields| && fields[f].sortKey.Some? ==> fields[f].sortKey.value < keys
      requires KeysApart(fields)
      ensures Valid() && history == [] && this.fields == fields && this.sortForm == sortForm
    {
      this.fields := fields;
      this.sortForm := sortForm;
      metadata := seq(|fields|, _ => []);
      sortkeys := seq(keys, _ => NoKey);
      owner := map[];
      history := [];
    }

    /** What a sort key reads as. */
    ghost function Key(k: nat): KeyValue
      requires k < |sortkeys|
      reads this, if sortkeys[k].SharedKey? then {sortkeys[k].node} else {}
    {
      match sortkeys[k]
      case NoKey => NoValue
      case TextKey(d, s) => TextValue(d, s)
      case SharedKey(n) =>
        if n.data.Number? then NumberValue(n.data.min, n.data.max) else NoValue
    }

    /** A sort key always goes with the field's current value: the shared key of a range
        follows every later widening. */
    lemma KeyFollows(f: nat)
      requires Valid() && f < |fields| && fields[f].sortKey.Some?
      ensures fields[f].sortKey.value < |sortkeys|
      ensures var k, p := fields[f].sortKey.value, fields[f].policy;
        var r := Online(p, AllSupplied(history, f));
        && (r != [] && p == MergeRange ==>
              r[0].Number? && Key(k) == NumberValue(r[0].min, r[0].max))
        && (r != [] && p == MergeLongest ==>
              && r[0].Text?
              && (forall s :: sortForm(k, r[0].disp) == Some(s) ==> Key(k) == TextValue(r[0].disp, s))
              && (sortForm(k, r[0].disp) == None ==> Key(k) == TextValue(r[0].disp, r[0].disp)))
        && (r == [] || (p != MergeRange && p != MergeLongest) ==> Key(k) == NoValue)
    {
      assert FieldShape(f, metadata[f]);
      assert Views()[f] == Online(fields[f].policy, AllSupplied(history, f));
    }

    /** Merges one value into field `f`. */
    method MergeValue(f: nat, v: Value, fresh0: bool)
      requires Shape() && f < |fields| && Suits(fields[f].policy, v)
      modifies this, owner.Keys
      ensures Shape() && history == old(history)
      ensures fresh(owner.Keys - old(owner.Keys))
      ensures Views() == old(Views())[f := Step(fields[f].policy, fresh0, old(Views())[f], v)]
    {
      assert FieldShape(f, metadata[f]);
      match fields[f].policy {
        case MergeNo =>
        case MergeFirst =>
          if fresh0 { Append(f, v); }
        case MergeUnique =>
          var i := 0;
          while i < |metadata[f]| && metadata[f][i].data.Norm() != v.Norm()
            invariant 0 <= i <= |metadata[f]|
            invariant forall j :: 0 <= j < i ==> metadata[f][j].data.Norm() != v.Norm()
          {
            i := i + 1;
          }
          if i == |metadata[f]| {
            Append(f, v);
          } else {
            assert Views()[f][i].Norm() == v.Norm();
          }
        case MergeLongest =>
          if metadata[f] == [] || |v.norm| > |metadata[f][0].data.norm| {
            Replace(f, v);
          }
        case MergeAll =>
          Append(f, v);
        case MergeRange =>
          if metadata[f] == [] {
            Replace(f, v);
          } else {
            Widen(f, v);
          }
      }
    }

    method Append(f: nat, v: Value)
      requires Shape() && f < |fields| && Suits(fields[f].policy, v)
      requires fields[f].policy != MergeRange && fields[f].policy != MergeLongest
      modifies this
      ensures Shape() && history == old(history)
      ensures fresh(owner.Keys - old(owner.Keys))
      ensures Views() == old(Views())[f := old(Views())[f] + [v]]
    {
      ghost var before := Views();
      assert FieldShape(f, metadata[f]);
      var node := new Node(v);
      metadata := metadata[f := metadata[f] + [node]];
      owner := owner[node := f];
      forall g | 0 <= g < |fields| && g != f
        ensures FieldShape(g, metadata[g]) && Data(metadata[g]) == before[g]
      {
        assert old(FieldShape(g, metadata[g]));
      }
      assert FieldShape(f, metadata[f]);
      ghost var after := before[f := before[f] + [v]];
      assert Data(metadata[f]) == after[f];
      assert Views() == after;
    }

    /** The value becomes the field's only one, and the sort key goes with it. */
    method Replace(f: nat, v: Value)
      requires Shape() && f < |fields| && Suits(fields[f].policy, v)
      requires fields[f].policy == MergeRange || fields[f].policy == MergeLongest
      modifies this
      ensures Shape() && history == old(history)
      ensures fresh(owner.Keys - old(owner.Keys))
      ensures Views() == old(Views())[f := [v]]
    {
      ghost var before := Views();
      assert FieldShape(f, metadata[f]);
      var node := new Node(v);
      metadata := metadata[f := [node]];
      owner := owner[node := f];
      if fields[f].sortKey.Some? {
        var k := fields[f].sortKey.value;
        sortkeys := sortkeys[k := if fields[f].policy == MergeRange then SharedKey(node)
                                  else TextKey(v.disp, SortText(k, v.disp))];
      }
      forall g | 0 <= g < |fields| && g != f
        ensures FieldShape(g, metadata[g]) && Data(metadata[g]) == before[g]
      {
        assert old(FieldShape(g, metadata[g]));
      }
      assert FieldShape(f, metadata[f]);
      ghost var after := before[f := [v]];
      assert Data(metadata[f]) == after[f];
      assert Views() == after;
    }

    /** Widens a range in place. */
    method Widen(f: nat, v: Value)
      requires Shape() && f < |fields| && fields[f].policy == MergeRange && v.Number?
      requires metadata[f] != []
      modifies owner.Keys
      ensures Shape()
      ensures Views() == old(Views())[f := Step(MergeRange, false, old(Views())[f], v)]
    {
      ghost var before := Views();
      assert FieldShape(f, metadata[f]);
      var node := metadata[f][0];
      if v.min < node.data.min {
        node.data := node.data.(min := v.min);
      }
      if v.max > node.data.max {
        node.data := node.data.(max := v.max);
      }
      forall g | 0 <= g < |fields| && g != f
        ensures FieldShape(g, metadata[g]) && Data(metadata[g]) == before[g]
      {
        assert old(FieldShape(g, metadata[g]));
      }
      assert FieldShape(f, metadata[f]);
      ghost var after := before[f := Step(MergeRange, false, before[f], v)];
      assert Data(metadata[f]) == after[f];
      assert Views() == after;
    }

    /** Merges one element, unless it has no field or no value. */
    method MergeElement(e: Element, metadata0: seq<seq<Node>>, ghost before: seq<seq<Value>>)
      requires Shape() && |metadata0| == |before| == |fields|
      requires forall f :: 0 <= f < |fields| ==> (metadata0[f] == [] <==> before[f] == [])
      requires Fits(e)
      modifies this, owner.Keys
      ensures Shape() && history == old(history)
      ensures fresh(owner.Keys - old(owner.Keys))
      ensures Views() == Merged(fields, before, old(Views()), e)
    {
      if 0 <= e.field < |fields| && e.value.Some? {
        MergeValue(e.field, e.value.value, metadata0[e.field] == []);
      }
    }

    /** Merges the elements of one record, in order. */
    method Ingest(record: seq<Element>)
      requires Valid()
      requires forall e :: e in record ==> Fits(e)
      modifies this, owner.Keys
      ensures Valid() && history == old(history) + [record]
      ensures fresh(owner.Keys - old(owner.Keys))
    {
      MergeElements(record);
      OnlineSnoc(fields, history, record);
      history := history + [record];
    }

    /** An element of a known field with a value has one that suits the field's policy. */
    ghost predicate Fits(e: Element)
    {
      0 <= e.field < |fields| && e.value.Some? ==> Suits(fields[e.field].policy, e.value.value)
    }

    method MergeElements(record: seq<Element>)
      requires Shape()
      requires forall e :: e in record ==> Fits(e)
      modifies this, owner.Keys
      ensures Shape() && history == old(history)
      ensures fresh(owner.Keys - old(owner.Keys))
      ensures Views() == AllTaken(fields, old(Views()), record)
    {
      var metadata0 := metadata;
      ghost var before := Views();
      var i := 0;
      assert AllTaken(fields, before, []) == before;
      while i < |record|
        invariant 0 <= i <= |record| && Shape() && history == old(history)
        invariant fresh(owner.Keys - old(owner.Keys))
        invariant Views() == AllTaken(fields, before, record[..i])
      {
        assert record[i] in record;
        TakenSnoc(fields, before, record, i);
        MergeElement(record[i], metadata0, before);
        i := i + 1;
      }
      assert record[..|record|] == record;
    }
  }

  function AllOnline(fields: seq<Field>, history: seq<seq<Element>>): seq<seq<Value>>
  {
    seq(|fields|, f requires 0 <= f < |fields| => Online(fields[f].policy, AllSupplied(history, f)))
  }

  /** Every field after a further record. */
  function AllTaken(fields: seq<Field>, before: seq<seq<Value>>, record: seq<Element>): (r: seq<seq<Value>>)
    requires |before| == |fields|
    ensures |r| == |fields|
    ensures forall f :: 0 <= f < |fields| ==>
      r[f] == Take(fields[f].policy, before[f] == [], before[f], Supplied(record, f))
  {
    seq(|fields|, f requires 0 <= f < |fields| =>
      Take(fields[f].policy, before[f] == [], before[f], Supplied(record, f)))
  }

  /** Every field after one more element of a record. */
  function Merged(fields: seq<Field>, before: seq<seq<Value>>, was: seq<seq<Value>>, e: Element): seq<seq<Value>>
    requires |before| == |was| == |fields|
  {
    if 0 <= e.field < |fields| && e.value.Some? then
      was[e.field := Step(fields[e.field].policy, before[e.field] == [], was[e.field], e.value.value)]
    else was
  }

  lemma TakenSnoc(fields: seq<Field>, before: seq<seq<Value>>, record: seq<Element>, i: nat)
    requires |before| == |fields| && i < |record|
    ensures AllTaken(fields, before, record[..i + 1])
      == Merged(fields, before, AllTaken(fields, before, record[..i]), record[i])
  {
    assert record[..i + 1][..i] == record[..i];
    var e, was, now := record[i], AllTaken(fields, before, record[..i]), AllTaken(fields, before, record[..i + 1]);
    forall f | 0 <= f < |fields|
      ensures now[f] == if e.field == f && e.value.Some?
        then Step(fields[f].policy, before[f] == [], was[f], e.value.value) else was[f]
    {
      var a := Supplied(record[..i], f);
      assert e.field == f && e.value.Some? ==> (a + [e.value.value])[..|a|] == a;
      assert a + [] == a;
    }
  }

  lemma OnlineSnoc(fields: seq<Field>, history: seq<seq<Element>>, record: seq<Element>)
    ensures AllOnline(fields, history + [record])
      == AllTaken(fields, AllOnline(fields, history), record)
  {
    forall f | 0 <= f < |fields|
      ensures AllOnline(fields, history + [record])[f] == AllTaken(fields, AllOnline(fields, history), record)[f]
    {
      AllSuppliedSnoc(history, record, fields[f].policy, f);
    }
  }
}
