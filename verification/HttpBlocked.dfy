/** Connections on which nothing will ever be cut again, whatever bytes come. */
module HttpBlocked {
  import opened Wrappers
  import opened HttpQueue
  import opened HttpFraming

  const WINDOW: nat := MAX_HTTP_HEADER - 1

  /** What the scanner sees of the bytes received. */
  function Seen(q: string): (s: string)
  {
    CStr(Take(q, WINDOW))
  }

  /** The text ends where a line ends, without an empty line before. */
  predicate DeadEnd(s: string)
    decreases |s|
  {
    s == [] ||
    match NextCrlf(s)
    case None => false
    case Some(line) => line.skipped > 0 && DeadEnd(s[line.next..])
  }

  /** No further byte changes what the scanner sees. */
  predicate Fixed(q: string)
  {
    |q| >= WINDOW || '\0' in q
  }

  predicate StartsWithLineEnd(q: string)
  {
    "\n" <= q || "\r\n" <= q
  }

  ghost predicate Blocked(q: string)
  {
    forall x :: Cut(q + x).0 == []
  }

  // ----- Dead ends -----------------------------------------------------------

  lemma {:induction false} DeadEndScan(s: string, sz: nat, len: nat, contentLen: nat)
    requires DeadEnd(s)
    ensures Scan(s, sz, len, contentLen) == 0
    decreases |s|
  {
    if s != [] {
      var next := s[NextCrlf(s).value.next..];
      DeadEndScan(next, sz, len + NextCrlf(s).value.next, LengthAt(next, contentLen));
    }
  }

  /** Anywhere else the scanner answers as soon as enough has been received. */
  lemma {:induction false} OpenScan(s: string, len: nat, contentLen: nat) returns (n: nat)
    requires !DeadEnd(s)
    ensures forall sz: nat :: sz >= n ==> Scan(s, sz, len, contentLen) > 0
    decreases |s|
  {
    n := WINDOW;
    if NextCrlf(s).Some? {
      var line := NextCrlf(s).value;
      if line.skipped == 0 {
        n := len + line.next + contentLen;
      } else {
        var next := s[line.next..];
        n := OpenScan(next, len + line.next, LengthAt(next, contentLen));
      }
    }
  }

  /** A text whose last line has not ended is no dead end. */
  lemma {:induction false} UnfinishedIsOpen(s: string)
    requires s != [] && s[|s| - 1] != '\n'
    ensures !DeadEnd(s)
    decreases |s|
  {
    if NextCrlf(s).Some? {
      FindMeaning(s, '\n');
      var next := s[NextCrlf(s).value.next..];
      UnfinishedIsOpen(next);
    }
  }

  // ----- The window ------------------------------------------------------------

  lemma {:induction false} CStrStops(s: string, x: string)
    requires '\0' in s
    ensures CStr(s + x) == CStr(s)
  {
    if s[0] != '\0' {
      assert (s + x)[1..] == s[1..] + x;
      assert s == [s[0]] + s[1..];
      CStrStops(s[1..], x);
    }
  }

  lemma FixedSeen(q: string, x: string)
    requires Fixed(q)
    ensures Seen(q + x) == Seen(q)
  {
    if |q| >= WINDOW {
      assert Take(q + x, WINDOW) == Take(q, WINDOW);
    } else {
      assert Take(q, WINDOW) == q;
      assert Take(q + x, WINDOW) == q + Take(x, WINDOW - |q|);
      CStrStops(q, Take(x, WINDOW - |q|));
    }
  }

  function Letters(n: nat): (r: string)
    ensures |r| == n
  {
    seq(n, _ => 'a')
  }

  lemma {:induction false} CStrWhole(s: string)
    requires '\0' !in s
    ensures CStr(s) == s
  {
    if s != [] { CStrWhole(s[1..]); }
  }

  /** Letters fill the window up to a line that has not ended. */
  lemma FillWindow(q: string)
    requires !Fixed(q)
    ensures Fixed(q + Letters(WINDOW)) && !DeadEnd(Seen(q + Letters(WINDOW)))
  {
    var p := q + Letters(WINDOW - |q|);
    assert Take(q + Letters(WINDOW), WINDOW) == p;
    CStrWhole(p);
    UnfinishedIsOpen(p);
  }

  // ----- When a connection is blocked --------------------------------------------

  /** Where the window is fixed and no dead end, some letters make a request complete. */
  lemma OpenGoesOn(q: string) returns (x: string)
    requires Fixed(q) && !DeadEnd(Seen(q)) && !StartsWithLineEnd(q)
    ensures Cut(q + x).0 != []
  {
    var n := OpenScan(Seen(q), 0, 0);
    x := Letters(n);
    FixedSeen(q, x);
    assert RequestCheck(q + x) > 0;
    assert !StartsWithLineEnd(q + x) by {
      if |q| > 1 { assert (q + x)[0] == q[0] && (q + x)[1] == q[1]; }
    }
    LineEndAnswer(q + x);
  }

  /** Nothing will ever be cut exactly when a line end comes first, or the scanner's
      window is fixed and the text in it ends where a line ends, without an empty line. */
  lemma BlockedExactly(q: string)
    ensures Blocked(q) <==> StartsWithLineEnd(q) || (Fixed(q) && DeadEnd(Seen(q)))
  {
    if StartsWithLineEnd(q) {
      forall x ensures Cut(q + x).0 == [] {
        LineEndAnswer(q);
        CheckIsStable(q, x);
      }
    } else if Fixed(q) && DeadEnd(Seen(q)) {
      forall x ensures Cut(q + x).0 == [] {
        FixedSeen(q, x);
        DeadEndScan(Seen(q), |q + x|, 0, 0);
      }
    } else if Fixed(q) {
      var x := OpenGoesOn(q);
    } else {
      FillWindow(q);
      var p := q + Letters(WINDOW);
      assert !StartsWithLineEnd(p) by {
        if |q| > 0 { assert p[0] == q[0]; }
        if |q| > 1 { assert p[1] == q[1]; }
        if |q| == 1 { assert p[1] == 'a'; }
      }
      var x := OpenGoesOn(p);
      assert p + x == q + (Letters(WINDOW) + x);
    }
  }

  /** Whatever fragments come to a blocked connection, nothing is cut. */
  lemma BlockedStays(q: string, fragments: seq<string>)
    requires Blocked(q)
    ensures CutFragments(q, fragments) == ([], q + Join(fragments))
  {
    assert q + [] == q;
    assert Cut(q + []).0 == [];
    FragmentsFrom(q, fragments);
    assert Cut(q + Join(fragments)).0 == [];
  }

  // ----- Blocked without a line end first ------------------------------------------

  /** `n` header lines of three bytes. */
  function Lines(n: nat): (r: string)
    ensures |r| == 3 * n && '\0' !in r
  {
    if n == 0 then "" else "A\r\n" + Lines(n - 1)
  }

  lemma {:induction false} LinesDeadEnd(n: nat)
    ensures DeadEnd(Lines(n))
  {
    if n > 0 {
      var s := Lines(n);
      assert s[0] == 'A' && s[1] == '\r' && s[2] == '\n' && s[3..] == Lines(n - 1);
      assert Find(s[1..], '\n') == Some(1) by {
        assert s[1..][0] == '\r' && s[1..][1..][0] == '\n';
      }
      LinesDeadEnd(n - 1);
    }
  }

  lemma LinesStart(n: nat)
    requires n > 0
    ensures Lines(n)[0] == 'A'
  {
  }

  /** Header lines that fill the window exactly block the connection: the answer for a
      header that is too long is given only inside a line. */
  lemma FullWindowBlocks()
    ensures |Lines(1365)| == WINDOW && !StartsWithLineEnd(Lines(1365)) && Blocked(Lines(1365))
  {
    hide Lines, DeadEnd, CStr, Blocked;
    var n := 1365;
    var q := Lines(n);
    LinesDeadEnd(n);
    LinesStart(n);
    CStrWhole(q);
    assert Take(q, WINDOW) == q;
    BlockedExactly(q);
  }

  /** So does a NUL ahead of everything. */
  lemma NulBlocks(x: string)
    ensures Blocked("\0" + x)
  {
    var q := "\0" + x;
    assert q[0] == '\0';
    assert Take(q, WINDOW)[0] == '\0';
    BlockedExactly(q);
  }
}
