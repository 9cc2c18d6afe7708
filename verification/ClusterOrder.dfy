/** The order in which clusters are shown: `reclist_cmp` over a list of sort
    parameters, in exact arithmetic. */
module ClusterOrder {

  datatype SortType =
    | Generic | SkipArticle | Year | Date | Position | Float | Relevance | Retrieval

  /** The sort key of a field: absent, or one arm of the union. */
  datatype SortKey = Missing | Text(text: string) | Range(min: int, max: int) | Number(value: real)

  datatype SortParm = SortParm(offset: nat, kind: SortType, increasing: bool)

  /** What the comparator reads of a cluster. */
  datatype Entry = Entry(
    recid: string,
    relevance: int,
    retrieval: int,
    positions: seq<int>,
    sortkeys: seq<SortKey>)

  /** The sign of `strcmp`. */
  function Strcmp(a: string, b: string): (r: int)
    ensures -1 <= r <= 1
  {
    if a == [] && b == [] then 0
    else if a == [] then -1
    else if b == [] then 1
    else if a[0] < b[0] then -1
    else if a[0] > b[0] then 1
    else Strcmp(a[1..], b[1..])
  }

  /** The loop over the record positions: zero stands for "none yet". */
  function LeastPosition(positions: seq<int>, sofar: int): (r: int)
  {
    if positions == [] then sofar
    else LeastPosition(positions[1..], if sofar == 0 || positions[0] < sofar then positions[0] else sofar)
  }

  /** The sort key of a field.  The service configures one arm of the union for each
      field, so a key of another arm does not occur; here it counts as absent. */
  function KeyAt(e: Entry, offset: nat): (r: SortKey)
  {
    if offset < |e.sortkeys| then e.sortkeys[offset] else Missing
  }

  function TextOf(k: SortKey): (r: string)
  {
    if k.Text? then k.text else ""
  }

  function Directed(res: int, increasing: bool): (r: int)
  {
    if increasing then res else -res
  }

  /** One round of the loop of `reclist_cmp`. */
  function CompareOn(p: SortParm, a: Entry, b: Entry): (r: int)
  {
    match p.kind
    case Relevance => Directed(a.relevance - b.relevance, p.increasing)
    case Retrieval => Directed(a.retrieval - b.retrieval, p.increasing)
    case Generic | SkipArticle =>
      Directed(Strcmp(TextOf(KeyAt(a, p.offset)), TextOf(KeyAt(b, p.offset))), p.increasing)
    case Year | Date =>
      (match (KeyAt(a, p.offset), KeyAt(b, p.offset))
       case (Range(min1, max1), Range(min2, max2)) =>
         Directed(if p.increasing then min1 - min2 else max1 - max2, p.increasing)
       case (Range(_, _), _) => -1
       case (_, Range(_, _)) => 1
       case _ => 0)
    case Position =>
      if a.positions != [] && b.positions != []
      then LeastPosition(a.positions, 0) - LeastPosition(b.positions, 0) else 0
    case Float =>
      (match (KeyAt(a, p.offset), KeyAt(b, p.offset))
       case (Number(x), Number(y)) =>
         Directed(if x == y then 0 else if x > y then 1 else -1, p.increasing)
       case (Number(_), _) => Directed(1, p.increasing)
       case (_, Number(_)) => Directed(-1, p.increasing)
       case _ => 0)
  }

  /** `reclist_cmp`. */
  function Compare(parms: seq<SortParm>, a: Entry, b: Entry): (r: int)
  {
    if parms == [] then Strcmp(a.recid, b.recid)
    else
      var r := CompareOn(parms[0], a, b);
      if r != 0 then r else Compare(parms[1..], a, b)
  }

  // ----- The order laws ------------------------------------------------------

  lemma {:induction false} StrcmpSigns(a: string, b: string)
    ensures Strcmp(a, b) == -Strcmp(b, a)
    ensures Strcmp(a, b) == 0 <==> a == b
  {
    if a != [] && b != [] {
      StrcmpSigns(a[1..], b[1..]);
      assert a == [a[0]] + a[1..] && b == [b[0]] + b[1..];
    }
  }

  /** `a` is not after `b` in the dictionary: it is the start of `b`, or has the smaller
      character where the two first differ. */
  ghost predicate TextUpTo(a: string, b: string)
  {
    a <= b || exists k: nat :: FirstDiffer(a, b, k) && a[k] < b[k]
  }

  ghost predicate FirstDiffer(a: string, b: string, k: nat)
  {
    k < |a| && k < |b| && a[..k] == b[..k] && a[k] != b[k]
  }

  lemma DifferAtHead(a: string, b: string, k: nat)
    requires a != [] && b != []
    ensures a[0] == b[0] ==> (FirstDiffer(a, b, k) <==> k > 0 && FirstDiffer(a[1..], b[1..], k - 1))
    ensures a[0] != b[0] ==> (FirstDiffer(a, b, k) <==> k == 0)
  {
    if k == 0 {
      assert a[..0] == b[..0];
    } else if k < |a| && k < |b| {
      assert a[..k] == [a[0]] + a[1..][..k - 1] && b[..k] == [b[0]] + b[1..][..k - 1];
      assert a[1..][..k - 1] == a[..k][1..] && b[1..][..k - 1] == b[..k][1..];
    }
  }

  lemma UpToHead(a: string, b: string)
    requires a != [] && b != []
    ensures TextUpTo(a, b) <==> a[0] < b[0] || (a[0] == b[0] && TextUpTo(a[1..], b[1..]))
  {
    assert a == [a[0]] + a[1..] && b == [b[0]] + b[1..];
    if |a| <= |b| { assert b[..|a|] == [b[0]] + b[1..][..|a| - 1]; }
    if k: nat :| FirstDiffer(a, b, k) && a[k] < b[k] { DifferAtHead(a, b, k); }
    if a[0] < b[0] { DifferAtHead(a, b, 0); }
    if k: nat :| FirstDiffer(a[1..], b[1..], k) && a[1..][k] < b[1..][k] { DifferAtHead(a, b, k + 1); }
  }

  lemma {:induction false} StrcmpMeaning(a: string, b: string)
    ensures Strcmp(a, b) <= 0 <==> TextUpTo(a, b)
  {
    hide TextUpTo;
    if a == [] || b == [] {
      UpToEmpty(a, b);
    } else {
      StrcmpMeaning(a[1..], b[1..]);
      UpToHead(a, b);
    }
  }

  lemma UpToEmpty(a: string, b: string)
    requires a == [] || b == []
    ensures TextUpTo(a, b) <==> a == []
  {
  }

  lemma {:induction false} StrcmpTransitive(a: string, b: string, c: string)
    requires Strcmp(a, b) <= 0 && Strcmp(b, c) <= 0
    ensures Strcmp(a, c) <= 0
    ensures Strcmp(a, b) < 0 || Strcmp(b, c) < 0 ==> Strcmp(a, c) < 0
  {
    if a != [] && b != [] && c != [] && a[0] == b[0] == c[0] {
      StrcmpTransitive(a[1..], b[1..], c[1..]);
    }
  }

  predicate IsText(p: SortParm)
  {
    p.kind.Generic? || p.kind.SkipArticle?
  }

  lemma TextLaws(p: SortParm, a: Entry, b: Entry, c: Entry)
    requires IsText(p)
    ensures OrderLaws(p, a, b, c)
  {
    hide Strcmp;
    var x, y, z := TextOf(KeyAt(a, p.offset)), TextOf(KeyAt(b, p.offset)), TextOf(KeyAt(c, p.offset));
    StrcmpSigns(x, y);
    StrcmpSigns(y, z);
    StrcmpSigns(x, z);
    if Strcmp(x, y) <= 0 && Strcmp(y, z) <= 0 { StrcmpTransitive(x, y, z); }
    if Strcmp(z, y) <= 0 && Strcmp(y, x) <= 0 { StrcmpTransitive(z, y, x); }
  }

  lemma NumberLaws(p: SortParm, a: Entry, b: Entry, c: Entry)
    requires !IsText(p) && a.positions != [] && b.positions != [] && c.positions != []
    ensures OrderLaws(p, a, b, c)
  {
    hide Strcmp, LeastPosition;
  }

  predicate OrderLaws(p: SortParm, a: Entry, b: Entry, c: Entry)
  {
    && (CompareOn(p, a, b) < 0 <==> CompareOn(p, b, a) > 0)
    && (CompareOn(p, a, b) <= 0 && CompareOn(p, b, c) <= 0 ==>
        && CompareOn(p, a, c) <= 0
        && (CompareOn(p, a, b) < 0 || CompareOn(p, b, c) < 0 ==> CompareOn(p, a, c) < 0))
  }

  /** Each parameter by itself orders the clusters up to ties.  Position needs every
      cluster to have a record. */
  lemma CompareOnLaws(p: SortParm, a: Entry, b: Entry, c: Entry)
    requires a.positions != [] && b.positions != [] && c.positions != []
    ensures CompareOn(p, a, b) < 0 <==> CompareOn(p, b, a) > 0
    ensures CompareOn(p, a, b) <= 0 && CompareOn(p, b, c) <= 0 ==>
      && CompareOn(p, a, c) <= 0
      && (CompareOn(p, a, b) < 0 || CompareOn(p, b, c) < 0 ==> CompareOn(p, a, c) < 0)
  {
    hide CompareOn;
    if IsText(p) { TextLaws(p, a, b, c); } else { NumberLaws(p, a, b, c); }
  }

  lemma {:induction false} CompareSigns(parms: seq<SortParm>, a: Entry, b: Entry)
    requires a.positions != [] && b.positions != []
    ensures Compare(parms, a, b) < 0 <==> Compare(parms, b, a) > 0
    ensures Compare(parms, a, b) == 0 ==> a.recid == b.recid
  {
    if parms == [] {
      StrcmpSigns(a.recid, b.recid);
    } else {
      CompareOnLaws(parms[0], a, b, a);
      CompareOnLaws(parms[0], b, a, b);
      CompareSigns(parms[1..], a, b);
    }
  }

  lemma {:induction false} CompareTransitive(parms: seq<SortParm>, a: Entry, b: Entry, c: Entry)
    requires a.positions != [] && b.positions != [] && c.positions != []
    requires Compare(parms, a, b) <= 0 && Compare(parms, b, c) <= 0
    ensures Compare(parms, a, c) <= 0
    ensures Compare(parms, a, b) < 0 || Compare(parms, b, c) < 0 ==> Compare(parms, a, c) < 0
  {
    if parms == [] {
      StrcmpTransitive(a.recid, b.recid, c.recid);
    } else {
      var p := parms[0];
      CompareOnLaws(p, a, b, c);
      CompareOnLaws(p, b, c, a);
      CompareOnLaws(p, c, a, b);
      if CompareOn(p, a, b) == 0 && CompareOn(p, b, c) == 0 {
        CompareOnLaws(p, c, b, a);
        CompareOnLaws(p, b, a, c);
        CompareTransitive(parms[1..], a, b, c);
      }
    }
  }

  /** What a list of clusters must meet to be sorted: every cluster has a record, and
      the identifiers are all different. */
  ghost predicate Sortable(xs: seq<Entry>)
  {
    && (forall i :: 0 <= i < |xs| ==> xs[i].positions != [])
    && (forall i, j :: 0 <= i < j < |xs| ==> xs[i].recid != xs[j].recid)
  }

  /** On clusters with different identifiers `reclist_cmp` is a strict total order. */
  lemma StrictTotalOrder(parms: seq<SortParm>, xs: seq<Entry>, i: nat, j: nat, k: nat)
    requires Sortable(xs) && i < |xs| && j < |xs| && k < |xs|
    ensures i != j ==> (Compare(parms, xs[i], xs[j]) < 0) != (Compare(parms, xs[j], xs[i]) < 0)
    ensures i == j ==> Compare(parms, xs[i], xs[j]) == 0
    ensures Compare(parms, xs[i], xs[j]) < 0 && Compare(parms, xs[j], xs[k]) < 0 ==>
      Compare(parms, xs[i], xs[k]) < 0
  {
    CompareSigns(parms, xs[i], xs[j]);
    CompareSigns(parms, xs[j], xs[i]);
    CompareSelf(parms, xs[i]);
    if Compare(parms, xs[i], xs[j]) < 0 && Compare(parms, xs[j], xs[k]) < 0 {
      CompareTransitive(parms, xs[i], xs[j], xs[k]);
    }
  }

  lemma {:induction false} CompareSelf(parms: seq<SortParm>, a: Entry)
    requires a.positions != []
    ensures Compare(parms, a, a) == 0
  {
    if parms == [] {
      StrcmpSigns(a.recid, a.recid);
    } else {
      CompareOnLaws(parms[0], a, a, a);
      CompareSelf(parms[1..], a);
    }
  }

  ghost predicate Sorted(parms: seq<SortParm>, xs: seq<Entry>)
  {
    forall i, j :: 0 <= i < j < |xs| ==> Compare(parms, xs[i], xs[j]) <= 0
  }

  lemma SameTails<T>(xs: seq<T>, ys: seq<T>)
    requires xs != [] && ys != [] && xs[0] == ys[0] && multiset(xs) == multiset(ys)
    ensures multiset(xs[1..]) == multiset(ys[1..])
  {
    assert xs == [xs[0]] + xs[1..] && ys == [ys[0]] + ys[1..];
    assert multiset(xs[1..]) == multiset(xs) - multiset{xs[0]};
    assert multiset(ys[1..]) == multiset(ys) - multiset{ys[0]};
  }

  lemma SameHead(parms: seq<SortParm>, xs: seq<Entry>, ys: seq<Entry>)
    requires Sortable(xs) && Sortable(ys) && xs != [] && ys != []
    requires multiset(xs) == multiset(ys)
    requires Sorted(parms, xs) && Sorted(parms, ys)
    ensures xs[0] == ys[0]
  {
    assert xs[0] in multiset(ys) && ys[0] in multiset(xs);
    var i :| 0 <= i < |ys| && ys[i] == xs[0];
    var j :| 0 <= j < |xs| && xs[j] == ys[0];
    CompareSigns(parms, xs[0], ys[0]);
    CompareSigns(parms, ys[0], xs[0]);
  }

  /** The clusters in order are determined by which clusters there are: not by the
      order they come in, nor by how the sort treats equal elements. */
  lemma {:induction false} SortedIsUnique(parms: seq<SortParm>, xs: seq<Entry>, ys: seq<Entry>)
    requires Sortable(xs) && Sortable(ys)
    requires multiset(xs) == multiset(ys)
    requires Sorted(parms, xs) && Sorted(parms, ys)
    ensures xs == ys
    decreases |xs|
  {
    assert |xs| == |multiset(xs)| == |multiset(ys)| == |ys|;
    if xs != [] {
      SameHead(parms, xs, ys);
      SameTails(xs, ys);
      SortedIsUnique(parms, xs[1..], ys[1..]);
      assert xs == [xs[0]] + xs[1..] && ys == [ys[0]] + ys[1..];
    }
  }

  /** What is greater than `e` at `p` makes all that follows it greater than `e`. */
  lemma GreaterFrom(parms: seq<SortParm>, xs: seq<Entry>, e: Entry, p: nat, j: nat)
    requires Sortable(xs) && Sorted(parms, xs) && p <= j < |xs|
    requires e.positions != []
    requires Compare(parms, xs[p], e) > 0
    ensures Compare(parms, e, xs[j]) <= 0
  {
    CompareSigns(parms, xs[p], e);
    CompareSigns(parms, e, xs[p]);
    if p < j {
      CompareTransitive(parms, e, xs[p], xs[j]);
    }
  }

  function Inserted(xs: seq<Entry>, e: Entry, p: nat): (ys: seq<Entry>)
    requires p <= |xs|
    ensures |ys| == |xs| + 1
    ensures forall i :: 0 <= i < |ys| ==> ys[i] == if i < p then xs[i] else if i == p then e else xs[i - 1]
  {
    xs[..p] + [e] + xs[p..]
  }

  lemma InsertSortable(xs: seq<Entry>, e: Entry, p: nat)
    requires Sortable(xs) && p <= |xs|
    requires e.positions != []
    requires forall i :: 0 <= i < |xs| ==> xs[i].recid != e.recid
    ensures Sortable(Inserted(xs, e, p))
  {
  }

  lemma InsertedPair(parms: seq<SortParm>, xs: seq<Entry>, e: Entry, p: nat, i: nat, j: nat)
    requires Sortable(xs) && Sorted(parms, xs) && p <= |xs| && i < j <= |xs|
    requires e.positions != []
    requires forall i :: 0 <= i < p ==> Compare(parms, xs[i], e) <= 0
    requires p < |xs| ==> Compare(parms, xs[p], e) > 0
    ensures Compare(parms, Inserted(xs, e, p)[i], Inserted(xs, e, p)[j]) <= 0
  {
    if i == p {
      GreaterFrom(parms, xs, e, p, j - 1);
    } else if j != p {
      var a, b := if i < p then i else i - 1, if j < p then j else j - 1;
      assert Compare(parms, xs[a], xs[b]) <= 0;
    }
  }

  /** An entry put before the first one that is greater keeps the list sorted. */
  lemma InsertSorted(parms: seq<SortParm>, xs: seq<Entry>, e: Entry, p: nat)
    requires Sortable(xs) && Sorted(parms, xs) && p <= |xs|
    requires e.positions != []
    requires forall i :: 0 <= i < |xs| ==> xs[i].recid != e.recid
    requires forall i :: 0 <= i < p ==> Compare(parms, xs[i], e) <= 0
    requires p < |xs| ==> Compare(parms, xs[p], e) > 0
    ensures Sortable(Inserted(xs, e, p)) && Sorted(parms, Inserted(xs, e, p))
  {
    InsertSortable(xs, e, p);
    forall i, j | 0 <= i < j < |xs| + 1
      ensures Compare(parms, Inserted(xs, e, p)[i], Inserted(xs, e, p)[j]) <= 0
    {
      InsertedPair(parms, xs, e, p, i, j);
    }
  }

  /** For positions counted from one the loop finds the least of them. */
  lemma {:induction false} LeastPositionIsLeast(positions: seq<int>, sofar: int)
    requires sofar >= 0 && (forall p :: p in positions ==> p >= 1)
    ensures var r := LeastPosition(positions, sofar);
      && (forall p :: p in positions ==> r <= p)
      && (sofar > 0 ==> r <= sofar)
      && (r in positions || r == sofar)
      && (positions != [] ==> r >= 1)
  {
    if positions != [] {
      var next := if sofar == 0 || positions[0] < sofar then positions[0] else sofar;
      assert positions[0] in positions;
      assert forall p :: p in positions[1..] ==> p in positions;
      LeastPositionIsLeast(positions[1..], next);
      assert positions == [positions[0]] + positions[1..];
    }
  }
}
