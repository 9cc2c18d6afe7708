/** A client's counts of the records of its current search, and the number of hits it
    estimates from them. */
module Counters {

  datatype Counts = Counts(
    startrecs: int, offset: int, filtered: int, ingestFailures: int, recordFailures: int, hits: int)
  {
    /** Records that the offset counts but that were not accepted. */
    function Lost(): int {
      filtered + ingestFailures + recordFailures
    }

    predicate NonNegative() {
      startrecs >= 0 && offset >= 0 && filtered >= 0 && ingestFailures >= 0 && recordFailures >= 0 && hits >= 0
    }

    predicate Bounded() {
      NonNegative() && Lost() <= offset
    }
  }

  /** How one record fares. `Skipped` covers a record that is accepted, one that is not
      there and one without a session to take it. */
  datatype Fate = Skipped | Filtered | IngestFailed | RecordFailed

  /** What happens to a client: a new range, a search that has no connection, one that
      runs anew or reuses its records, the answer to a search, and a record. */
  datatype Event =
    | Range(startrecs: int)
    | StartFailed
    | StartFresh
    | StartReuse(fates: seq<Fate>)
    | SearchFailed
    | SearchDone(hits: int)
    | Record(fate: Fate)

  predicate Proper(e: Event)
  {
    (e.Range? ==> e.startrecs >= 0) && (e.SearchDone? ==> e.hits >= 0)
  }

  // ----- Counting --------------------------------------------------------------

  function Cleared(c: Counts): Counts
  {
    c.(filtered := 0, ingestFailures := 0, recordFailures := 0)
  }

  /** `client_record_ingest`. */
  function Ingested(c: Counts, fate: Fate): Counts
  {
    match fate
    case Skipped => c.(offset := c.offset + 1)
    case Filtered => c.(offset := c.offset + 1, filtered := c.filtered + 1)
    case IngestFailed => c.(offset := c.offset + 1, ingestFailures := c.ingestFailures + 1)
    case RecordFailed => c.(offset := c.offset + 1, recordFailures := c.recordFailures + 1)
  }

  function AllIngested(c: Counts, fates: seq<Fate>): Counts
  {
    if fates == [] then c
    else Ingested(AllIngested(c, fates[..|fates| - 1]), fates[|fates| - 1])
  }

  /** How many of the records from `startrecs` on a reused result takes up again. */
  function Again(c: Counts): nat
  {
    if c.startrecs < c.offset then c.offset - c.startrecs else 0
  }

  /** `client_reingest`: a fate beyond those given is `Skipped`. */
  function Reingested(c: Counts, fates: seq<Fate>): Counts
  {
    AllIngested(Cleared(c).(offset := c.startrecs), Fitted(fates, Again(c)))
  }

  function Fitted(fates: seq<Fate>, n: nat): (r: seq<Fate>)
    ensures |r| == n
  {
    seq(n, i requires 0 <= i < n => if i < |fates| then fates[i] else Skipped)
  }

  function Next(c: Counts, e: Event): Counts
  {
    match e
    case Range(startrecs) => c.(startrecs := startrecs)
    case StartFailed => Cleared(c)
    case StartFresh => Cleared(c).(offset := 0, hits := 0)
    case StartReuse(fates) => Reingested(Cleared(c), fates)
    case SearchFailed => c.(hits := 0)
    case SearchDone(hits) => c.(offset := c.startrecs, hits := hits)
    case Record(fate) => Ingested(c, fate)
  }

  const Fresh := Counts(0, 0, 0, 0, 0, 0)

  function After(events: seq<Event>): Counts
  {
    if events == [] then Fresh else Next(After(events[..|events| - 1]), events[|events| - 1])
  }

  // ----- The lost never outnumber the counted ----------------------------------

  /** Each search is answered once, before any of its records. */
  ghost predicate Orderly(events: seq<Event>)
  {
    forall i, j :: 0 <= i < j < |events| && Counting(events[i]) && events[j].SearchDone? ==>
      RestartedBetween(events, i, j)
  }

  predicate Counting(e: Event)
  {
    e.Record? || e.SearchDone? || e.StartReuse?
  }

  ghost predicate RestartedBetween(events: seq<Event>, i: nat, j: nat)
    requires j <= |events|
  {
    exists k :: i < k < j && (events[k].StartFresh? || events[k].StartFailed?)
  }

  lemma {:induction false} IngestAllBounds(c: Counts, fates: seq<Fate>)
    requires c.Bounded()
    ensures AllIngested(c, fates).Bounded()
    ensures AllIngested(c, fates).offset == c.offset + |fates|
    ensures AllIngested(c, fates).Lost() <= c.Lost() + |fates|
  {
    if fates != [] { IngestAllBounds(c, fates[..|fates| - 1]); }
  }

  /** Each record is counted by the offset, and by what became of it. */
  lemma {:induction false} RecordsAreTallied(c: Counts, fates: seq<Fate>)
    ensures var d, all := AllIngested(c, fates), multiset(fates);
      && d.startrecs == c.startrecs && d.hits == c.hits
      && d.offset == c.offset + |fates|
      && d.filtered == c.filtered + all[Filtered]
      && d.ingestFailures == c.ingestFailures + all[IngestFailed]
      && d.recordFailures == c.recordFailures + all[RecordFailed]
  {
    if fates != [] {
      var n := |fates| - 1;
      RecordsAreTallied(c, fates[..n]);
      assert fates == fates[..n] + [fates[n]];
    }
  }

  /** The records that come after some events are tallied on top of them. */
  lemma {:induction false} RecordsInTurn(events: seq<Event>, fates: seq<Fate>)
    ensures After(events + Records(fates)) == AllIngested(After(events), fates)
  {
    var all := events + Records(fates);
    if fates == [] {
      assert all == events;
    } else {
      var n := |fates| - 1;
      RecordsInTurn(events, fates[..n]);
      assert all[..|all| - 1] == events + Records(fates[..n]);
    }
  }

  function Records(fates: seq<Fate>): (r: seq<Event>)
    ensures |r| == |fates|
  {
    seq(|fates|, i requires 0 <= i < |fates| => Record(fates[i]))
  }

  /** After a search that starts anew, is answered, and delivers records, the counts are
      those of these records: nothing from before is left but the range asked for. */
  lemma SearchIsTallied(past: seq<Event>, startrecs: int, hits: int, fates: seq<Fate>)
    ensures var all := multiset(fates);
      After(past + [Range(startrecs), StartFresh, SearchDone(hits)] + Records(fates))
      == Counts(startrecs, startrecs + |fates|, all[Filtered], all[IngestFailed], all[RecordFailed], hits)
  {
    hide AllIngested;
    var a, b, c := past + [Range(startrecs)], past + [Range(startrecs), StartFresh],
      past + [Range(startrecs), StartFresh, SearchDone(hits)];
    assert a[..|past|] == past && b[..|past| + 1] == a && c[..|past| + 2] == b;
    assert After(a) == Next(After(past), Range(startrecs));
    assert After(b) == Next(After(a), StartFresh) && After(c) == Next(After(b), SearchDone(hits));
    RecordsInTurn(c, fates);
    RecordsAreTallied(After(c), fates);
  }

  /** Every event but the answer to a search keeps the bound, and an answer keeps it
      exactly when no more records have been lost than the search skips at its start. */
  lemma NextBounded(c: Counts, e: Event)
    requires c.Bounded() && Proper(e)
    ensures !e.SearchDone? ==> Next(c, e).Bounded()
    ensures e.SearchDone? ==> (Next(c, e).Bounded() <==> c.Lost() <= c.startrecs)
  {
    if e.StartReuse? {
      IngestAllBounds(Cleared(c).(offset := c.startrecs), Fitted(e.fates, Again(Cleared(c))));
    }
  }

  /** A reused result has the same records as before, from the first one asked for. */
  lemma ReuseKeepsOffset(c: Counts, fates: seq<Fate>)
    requires c.Bounded()
    ensures Reingested(c, fates).offset == if c.startrecs < c.offset then c.offset else c.startrecs
    ensures Reingested(c, fates).Lost() <= Again(c)
  {
    IngestAllBounds(Cleared(c).(offset := c.startrecs), Fitted(fates, Again(c)));
  }

  /** Nothing is lost where nothing was counted since the last start. */
  lemma {:induction false} NothingLostYet(events: seq<Event>)
    requires forall i :: 0 <= i < |events| && Counting(events[i]) ==> RestartedBetween(events, i, |events|)
    ensures After(events).Lost() == 0
  {
    if events != [] {
      var n := |events| - 1;
      var e := events[n];
      if !e.StartFresh? && !e.StartFailed? {
        forall i | 0 <= i < n && Counting(events[..n][i]) ensures RestartedBetween(events[..n], i, n) {
          assert RestartedBetween(events, i, n + 1);
          var k :| i < k < n + 1 && (events[k].StartFresh? || events[k].StartFailed?);
          assert events[..n][k] == events[k];
        }
        NothingLostYet(events[..n]);
      }
    }
  }

  lemma OrderlyPast(events: seq<Event>)
    requires events != [] && Orderly(events)
    ensures var n := |events| - 1;
      && Orderly(events[..n])
      && (events[n].SearchDone? ==>
           forall i :: 0 <= i < n && Counting(events[..n][i]) ==> RestartedBetween(events[..n], i, n))
  {
    hide Counting;
    var n := |events| - 1;
    var past := events[..n];
    assert forall i, j :: 0 <= i < j <= n && RestartedBetween(events, i, j) ==> RestartedBetween(past, i, j) by {
      forall i, j | 0 <= i < j <= n && RestartedBetween(events, i, j) ensures RestartedBetween(past, i, j) {
        var k :| i < k < j && (events[k].StartFresh? || events[k].StartFailed?);
        assert past[k] == events[k];
      }
    }
    forall i, j | 0 <= i < j < n && Counting(past[i]) && past[j].SearchDone?
      ensures RestartedBetween(past, i, j)
    {
      assert Counting(events[i]) && events[j].SearchDone?;
    }
    forall i | 0 <= i < n && events[n].SearchDone? && Counting(past[i]) ensures RestartedBetween(past, i, n) {
      assert Counting(events[i]);
    }
  }

  /** In every orderly run the filtered and failed records together never outnumber the
      records counted. */
  lemma {:induction false} RunBounded(events: seq<Event>)
    requires Orderly(events) && forall i :: 0 <= i < |events| ==> Proper(events[i])
    ensures After(events).Bounded()
  {
    hide Next, Orderly, Counting, RestartedBetween;
    if events != [] {
      var n := |events| - 1;
      var past := events[..n];
      OrderlyPast(events);
      RunBounded(past);
      if events[n].SearchDone? { NothingLostYet(past); }
      NextBounded(After(past), events[n]);
    }
  }

  // ----- The estimate ------------------------------------------------------------

  /** Division that truncates towards zero. */
  function TruncDiv(a: int, b: int): int
    requires b != 0
  {
    if (a >= 0) == (b > 0) then (if a >= 0 then a / b else -a / -b)
    else if a >= 0 then -(a / -b) else -(-a / b)
  }

  lemma TruncDivMeaning(a: int, b: int)
    requires b != 0
    ensures var q := TruncDiv(a, b);
      var r := a - q * b;
      -Magnitude(b) < r < Magnitude(b) && (r > 0 ==> a > 0) && (r < 0 ==> a < 0)
  {
  }

  function Magnitude(x: int): int
  {
    if x < 0 then -x else x
  }

  /** `client_get_approximation`. */
  function Approximation(c: Counts): int
  {
    if c.offset > 0 then
      TruncDiv(TruncDiv(10 * c.hits * (c.offset - c.filtered), c.offset) + 5, 10)
    else c.hits
  }

  /** `r` is the integer nearest to `n / d`, the greater one of two. */
  predicate Nearest(r: int, n: int, d: int)
  {
    2 * d * r <= 2 * n + d < 2 * d * (r + 1)
  }

  /** Two rounded divisions, by `o` and then by ten, are one. */
  lemma NestedDivision(n: int, o: int)
    requires n >= 0 && o > 0
    ensures Nearest(((10 * n) / o + 5) / 10, n, o)
  {
    var q := (10 * n) / o;
    assert o * q <= 10 * n < o * q + o;
    Rounded(n, o, q, (q + 5) / 10);
  }

  lemma Rounded(n: int, o: int, q: int, r: int)
    requires o > 0 && o * q <= 10 * n < o * q + o && 10 * r <= q + 5 <= 10 * r + 9
    ensures Nearest(r, n, o)
  {
    MulMono(10 * r - 5, q, o);
    MulMono(q, 10 * r + 4, o);
  }

  lemma MulMono(a: int, b: int, o: int)
    requires a <= b && o >= 0
    ensures a * o <= b * o
  {
  }

  lemma NearestInRange(r: int, n: int, d: int, top: int)
    requires d > 0 && Nearest(r, n, d) && 0 <= n <= top * d
    ensures 0 <= r <= top
  {
    if r < 0 { MulMono(r + 1, 0, 2 * d); }
    if r > top { MulMono(top + 1, r, 2 * d); }
  }

  lemma TruncDivCounts(a: int, b: int)
    requires a >= 0 && b > 0
    ensures TruncDiv(a, b) == a / b >= 0
  {
  }

  /** With the bound, the estimate is the hits times the share of records not filtered,
      rounded to the nearest integer, and so between zero and the hits.  Before any record
      it is the hits themselves. */
  lemma ApproximationMeaning(c: Counts)
    requires c.Bounded()
    ensures 0 <= Approximation(c) <= c.hits
    ensures c.offset == 0 ==> Approximation(c) == c.hits
    ensures c.offset > 0 ==> Nearest(Approximation(c), c.hits * (c.offset - c.filtered), c.offset)
  {
    hide TruncDiv, Nearest;
    if c.offset > 0 {
      var kept := c.offset - c.filtered;
      var n := c.hits * kept;
      MulMono(kept, c.offset, c.hits);
      MulMono(0, kept, c.hits);
      assert 10 * c.hits * kept == 10 * n;
      TruncDivCounts(10 * n, c.offset);
      TruncDivCounts((10 * n) / c.offset + 5, 10);
      NestedDivision(n, c.offset);
      NearestInRange(Approximation(c), n, c.offset, c.hits);
    }
  }

  /** An answer that comes after records breaks the bound: the estimate can fall below
      zero. */
  lemma LateAnswer() returns (events: seq<Event>)
    ensures forall i :: 0 <= i < |events| ==> Proper(events[i])
    ensures !After(events).Bounded() && Approximation(After(events)) == -299
  {
    var a, b, c, d := [StartFresh], [StartFresh, Record(Filtered)],
      [StartFresh, Record(Filtered), Record(Filtered)],
      [StartFresh, Record(Filtered), Record(Filtered), Record(Filtered)];
    var e := d + [SearchDone(100)];
    events := e + [Record(Filtered)];
    assert a[..0] == [] && b[..1] == a && c[..2] == b && d[..3] == c && e[..4] == d && events[..5] == e;
    assert After(d) == Counts(0, 3, 3, 0, 0, 0);
    assert After(e) == Counts(0, 0, 3, 0, 0, 100);
    assert After(events) == Counts(0, 1, 4, 0, 0, 100);
  }

  // ----- The client's fields -----------------------------------------------------

  class ClientCounters {
    var startrecs: int
    var offset: int
    var filtered: int
    var ingestFailures: int
    var recordFailures: int
    var hits: int

    constructor ()
      ensures View() == Fresh
    {
      startrecs, offset, filtered, ingestFailures, recordFailures, hits := 0, 0, 0, 0, 0, 0;
    }

    ghost function View(): Counts
      reads this
    {
      Counts(startrecs, offset, filtered, ingestFailures, recordFailures, hits)
    }

    method RecordIngest(fate: Fate)
      modifies this
      ensures View() == Next(old(View()), Record(fate))
    {
      match fate {
        case Skipped =>
        case Filtered => filtered := filtered + 1;
        case IngestFailed => ingestFailures := ingestFailures + 1;
        case RecordFailed => recordFailures := recordFailures + 1;
      }
      offset := offset + 1;
    }

    method Reingest(fates: seq<Fate>)
      modifies this
      ensures View() == Reingested(old(View()), fates)
    {
      var i := startrecs;
      var to := offset;
      recordFailures, ingestFailures, filtered := 0, 0, 0;
      offset := i;
      ghost var zero := View();
      ghost var all := Fitted(fates, Again(old(View())));
      var n := 0;
      while i < to
        invariant n == i - zero.startrecs && (i <= to || n == 0)
        invariant 0 <= n <= |all| && (i < to ==> n < |all|) && View() == AllIngested(zero, all[..n])
      {
        RecordIngest(if n < |fates| then fates[n] else Skipped);
        assert all[..n + 1][..n] == all[..n];
        i := i + 1;
        n := n + 1;
      }
      assert all[..n] == all;
    }

    /** `client_start_search`, as far as it counts: `prepared` says whether there is a
        connection, and `reuse` whether the last result still stands. */
    method StartSearch(prepared: bool, reuse: bool, fates: seq<Fate>)
      modifies this
      ensures View() == Next(old(View()),
        if prepared && reuse then StartReuse(fates) else if !prepared then StartFailed else StartFresh)
      ensures startrecs == old(startrecs)
      ensures !prepared || !reuse ==> filtered == ingestFailures == recordFailures == 0
      ensures !prepared ==> hits == old(hits) && offset == old(offset)
      ensures prepared && !reuse ==> hits == 0 && offset == 0
      ensures prepared && reuse ==>
        hits == old(hits) && offset == if startrecs < old(offset) then old(offset) else startrecs
    {
      RecordsAreTallied(Cleared(View()).(offset := startrecs), Fitted(fates, Again(View())));
      recordFailures, ingestFailures, filtered := 0, 0, 0;
      if prepared && reuse {
        Reingest(fates);
      } else if prepared {
        hits := 0;
        offset := 0;
      }
    }

    method SearchResponse(error: bool, size: int)
      modifies this
      ensures View() == Next(old(View()), if error then SearchFailed else SearchDone(size))
      ensures hits == (if error then 0 else size) && offset == if error then old(offset) else startrecs
      ensures startrecs == old(startrecs) && filtered == old(filtered)
        && ingestFailures == old(ingestFailures) && recordFailures == old(recordFailures)
    {
      if error {
        hits := 0;
      } else {
        offset := startrecs;
        hits := size;
      }
    }

    method GetApproximation() returns (r: int)
      ensures r == Approximation(View())
      ensures View().Bounded() ==> 0 <= r <= hits
      ensures View().Bounded() && offset > 0 ==> Nearest(r, hits * (offset - filtered), offset)
      ensures offset <= 0 ==> r == hits
    {
      if View().Bounded() { ApproximationMeaning(View()); }
      if offset > 0 {
        return TruncDiv(TruncDiv(10 * hits * (offset - filtered), offset) + 5, 10);
      }
      return hits;
    }
  }
}
