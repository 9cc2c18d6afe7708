/** What the scanner answers, in terms of the lines of the text it sees: where the first
    empty line is, and which header line gave the length of the body. */
module HttpHead {
  import opened Wrappers
  import opened HttpQueue
  import opened HttpFraming
  import opened HttpBlocked
  import opened HttpLength

  // ----- Lines ---------------------------------------------------------------

  ghost predicate LineStart(s: string, k: nat)
  {
    k <= |s| && (k == 0 || s[k - 1] == '\n')
  }

  ghost predicate EmptyLineAt(s: string, k: nat)
  {
    LineStart(s, k) && ("\n" <= s[k..] || "\r\n" <= s[k..])
  }

  ghost predicate FirstEmptyLine(s: string, k: nat)
  {
    EmptyLineAt(s, k) && forall j: nat :: j < k ==> !EmptyLineAt(s, j)
  }

  ghost predicate NoEmptyLine(s: string)
  {
    forall k: nat :: !EmptyLineAt(s, k)
  }

  /** A header line with a length starts at `j`, ahead of `k`; the first line is none. */
  ghost predicate LengthLineAt(s: string, j: nat, k: nat)
  {
    0 < j < k && LineStart(s, j) && IsLengthLine(s[j..])
  }

  /** The last such line starts at `j`. */
  ghost predicate LastLengthLine(s: string, j: nat, k: nat)
  {
    LengthLineAt(s, j, k) && forall i: nat :: i > j ==> !LengthLineAt(s, i, k)
  }

  ghost predicate NoLengthLine(s: string, k: nat)
  {
    forall j: nat :: !LengthLineAt(s, j, k)
  }

  /** After the lines ahead of `k` the length is that of the last header that gives one,
      or `before` if none does. */
  ghost predicate LengthAfter(s: string, k: nat, before: nat, n: nat)
  {
    (NoLengthLine(s, k) && n == before)
    || exists j: nat :: LastLengthLine(s, j, k) && LengthAt(s[j..], 0) == n
  }

  lemma LineAfter(s: string, next: nat, k: nat)
    requires 0 < next <= |s| && s[next - 1] == '\n'
    ensures LineStart(s[next..], k) <==> LineStart(s, k + next)
    ensures k + next <= |s| ==> s[next..][k..] == s[k + next..]
    ensures EmptyLineAt(s[next..], k) <==> EmptyLineAt(s, k + next)
  {
  }

  /** A line that is not empty ends at `next`: no line starts before that. */
  lemma FirstLine(s: string, next: nat)
    requires NextCrlf(s).Some? && next == NextCrlf(s).value.next
    ensures s[next - 1] == '\n' && forall k: nat :: 0 < k < next ==> !LineStart(s, k)
    ensures NextCrlf(s).value.skipped == 0 <==> EmptyLineAt(s, 0)
    ensures EmptyLineAt(s, 0) ==> next == if s[0] == '\n' then 1 else 2
  {
    FindMeaning(s, '\n');
    forall k: nat | 0 < k < next ensures !LineStart(s, k) {
      assert s[k - 1] == s[..next - 1][k - 1];
    }
    if "\n" <= s { FoundBy(s, 0); }
    if "\r\n" <= s {
      assert s[0] == '\r' && s[1] == '\n';
      FoundBy(s, 1);
    }
    if next == 1 { assert s[..1] == "\n"; }
    if next == 2 && s[0] == '\r' { assert s[..2] == "\r\n"; }
  }

  lemma {:induction false} FoundBy(s: string, k: nat)
    requires k < |s| && s[k] == '\n'
    ensures Find(s, '\n').Some? && Find(s, '\n').value <= k
  {
    if s[0] != '\n' { FoundBy(s[1..], k - 1); }
  }

  // ----- The scanner ---------------------------------------------------------

  /** Where no line is empty, the answer is that of a header that is too long, if there is
      an unfinished line and enough has been received. */
  lemma {:induction false} ScanWithoutEnd(s: string, sz: nat, len: nat, before: nat)
    requires NoEmptyLine(s)
    ensures Scan(s, sz, len, before) == if s != "" && s[|s| - 1] != '\n' && sz >= 4095 then 4095 else 0
    decreases |s|
  {
    if s != "" {
      if NextCrlf(s).None? {
        FindMeaning(s, '\n');
      } else {
        var next := NextCrlf(s).value.next;
        FirstLine(s, next);
        forall k: nat ensures !EmptyLineAt(s[next..], k) {
          LineAfter(s, next, k);
        }
        ScanWithoutEnd(s[next..], sz, len + next, LengthAt(s[next..], before));
      }
    }
  }

  lemma LengthLineAfter(s: string, next: nat, j: nat, k: nat)
    requires 0 < next <= |s| && s[next - 1] == '\n' && next <= k
    ensures LengthLineAt(s[next..], j, k - next) <==> j > 0 && LengthLineAt(s, j + next, k)
  {
    hide IsLengthLine;
    LineAfter(s, next, j);
  }

  /** The lengths given after the first two lines are those of the rest. */
  lemma LengthsOfRest(s: string, next: nat, k: nat)
    requires NextCrlf(s).Some? && next == NextCrlf(s).value.next <= k
    ensures NoLengthLine(s, k) ==> NoLengthLine(s[next..], k - next)
    ensures LastLengthLine(s, next, k) ==> NoLengthLine(s[next..], k - next)
    ensures forall j: nat :: LastLengthLine(s, j, k) && j != next ==>
      j > next && LastLengthLine(s[next..], j - next, k - next)
  {
    hide IsLengthLine, LengthLineAt;
    FirstLine(s, next);
    var rest, m := s[next..], k - next;
    forall j: nat ensures LengthLineAt(rest, j, m) <==> j > 0 && LengthLineAt(s, j + next, k) {
      LengthLineAfter(s, next, j, k);
    }
    forall j: nat | LengthLineAt(s, j, k) ensures j >= next {
      LengthLineStart(s, j, k);
    }
  }

  lemma LengthLineStart(s: string, j: nat, k: nat)
    requires LengthLineAt(s, j, k)
    ensures j > 0 && LineStart(s, j) && IsLengthLine(s[j..])
  {
  }

  /** The line after the first one has been read. */
  lemma LengthOfRest(s: string, next: nat, k: nat, before: nat, n: nat)
    requires NextCrlf(s).Some? && next == NextCrlf(s).value.next <= k && EmptyLineAt(s, k)
    requires LengthAfter(s, k, before, n)
    ensures LengthAfter(s[next..], k - next, LengthAt(s[next..], before), n)
  {
    hide IsLengthLine, EmptyLineAt, NoLengthLine, LengthAt;
    LengthsOfRest(s, next, k);
    FirstLine(s, next);
    if NoLengthLine(s, k) && n == before {
      OtherOrEmpty(s, next, k, before);
    } else {
      var j: nat :| LastLengthLine(s, j, k) && LengthAt(s[j..], 0) == n;
      if j > next {
        assert s[next..][j - next..] == s[j..];
      } else {
        LastIsLength(s, j, k);
        LengthIgnoresBefore(s[next..], before);
      }
    }
  }

  lemma LastIsLength(s: string, j: nat, k: nat)
    requires LastLengthLine(s, j, k)
    ensures j <= |s| && IsLengthLine(s[j..])
  {
  }

  lemma LengthIgnoresBefore(s: string, before: nat)
    requires IsLengthLine(s)
    ensures LengthAt(s, before) == LengthAt(s, 0)
  {
    LineInAnyCase(s);
  }

  lemma OtherOrEmpty(s: string, next: nat, k: nat, before: nat)
    requires 0 < next <= |s| && s[next - 1] == '\n' && next <= k && EmptyLineAt(s, k)
    requires NoLengthLine(s, k)
    ensures LengthAt(s[next..], before) == before
  {
    assert !LengthLineAt(s, next, k);
    EmptyIsNoLength(s, k);
    OtherLine(s[next..], before);
  }

  lemma EmptyIsNoLength(s: string, k: nat)
    requires EmptyLineAt(s, k)
    ensures !IsLengthLine(s[k..])
  {
    if IsLengthLine(s[k..]) {
      LengthLineHead(s[k..]);
      assert false;
    }
  }

  lemma LengthLineHead(t: string)
    requires IsLengthLine(t)
    ensures !("\n" <= t) && !("\r\n" <= t)
  {
    assert t[0] == 'c' || t[0] == 'C';
  }

  lemma NothingBefore(s: string, before: nat, n: nat)
    requires LengthAfter(s, 0, before, n)
    ensures n == before
  {
  }

  /** The answer at the first empty line: the head and the declared length, once that much
      has been received. */
  lemma {:induction false} ScanToEnd(s: string, k: nat, sz: nat, len: nat, before: nat, n: nat)
    requires FirstEmptyLine(s, k) && LengthAfter(s, k, before, n)
    ensures var r := len + k + (if s[k] == '\n' then 1 else 2) + n;
      Scan(s, sz, len, before) == if r <= sz then r else 0
    decreases |s|
  {
    hide Scan, LengthAt, EmptyLineAt, LengthAfter;
    EndedLine(s, k);
    ScanLineByLine(s, sz, len, before);
    var next := NextCrlf(s).value.next;
    FirstLine(s, next);
    if k == 0 {
      NothingBefore(s, before, n);
    } else {
      assert !EmptyLineAt(s, 0);
      EmptyIsStart(s, k);
      LineAfter(s, next, k - next);
      forall j: nat | j < k - next ensures !EmptyLineAt(s[next..], j) {
        LineAfter(s, next, j);
      }
      LengthOfRest(s, next, k, before, n);
      ScanToEnd(s[next..], k - next, sz, len + next, LengthAt(s[next..], before), n);
    }
  }

  lemma ScanLineByLine(s: string, sz: nat, len: nat, before: nat)
    requires NextCrlf(s).Some?
    ensures var line := NextCrlf(s).value;
      Scan(s, sz, len, before) ==
        if line.skipped > 0 then Scan(s[line.next..], sz, len + line.next, LengthAt(s[line.next..], before))
        else if len + line.next + before <= sz then len + line.next + before else 0
  {
  }

  lemma EmptyIsStart(s: string, k: nat)
    requires EmptyLineAt(s, k)
    ensures LineStart(s, k)
  {
  }

  lemma EndedLine(s: string, k: nat)
    requires EmptyLineAt(s, k)
    ensures NextCrlf(s).Some? && k < |s|
  {
    FindMeaning(s, '\n');
    assert '\n' in s[k..] by { assert s[k..][0] == '\n' || s[k..][1] == '\n'; }
    assert forall c :: c in s[k..] ==> c in s;
  }

  // ----- The check -----------------------------------------------------------

  /** What the check answers for the bytes received.  Of the first 4095 bytes, up to a NUL,
      it looks for the first empty line: the request ends there, or after as many further
      bytes as the last Content-Length header says, and is complete once they have come.
      Without an empty line a window that is full and ends inside a line is answered as
      it is. */
  lemma CheckMeaning(q: string, k: nat, n: nat)
    ensures var s := Seen(q);
      FirstEmptyLine(s, k) && LengthAfter(s, k, 0, n) ==>
        var r := k + (if s[k] == '\n' then 1 else 2) + n;
        RequestCheck(q) == if r <= |q| then r else 0
    ensures var s := Seen(q);
      NoEmptyLine(s) ==>
        RequestCheck(q) == if s != "" && s[|s| - 1] != '\n' && |q| >= 4095 then 4095 else 0
  {
    var s := Seen(q);
    if FirstEmptyLine(s, k) && LengthAfter(s, k, 0, n) { ScanToEnd(s, k, |q|, 0, 0, n); }
    if NoEmptyLine(s) { ScanWithoutEnd(s, |q|, 0, 0); }
  }

  /** One of the two cases holds of any bytes. */
  lemma CheckCases(q: string) returns (k: nat, n: nat)
    ensures NoEmptyLine(Seen(q)) || (FirstEmptyLine(Seen(q), k) && LengthAfter(Seen(q), k, 0, n))
  {
    var s := Seen(q);
    k, n := 0, 0;
    if !NoEmptyLine(s) {
      k :| EmptyLineAt(s, k);
      k := LeastEmpty(s, k);
      n := SomeLength(s, k);
    }
  }

  lemma {:induction false} LeastEmpty(s: string, k: nat) returns (j: nat)
    requires EmptyLineAt(s, k)
    ensures FirstEmptyLine(s, j)
    decreases k
  {
    if i: nat :| i < k && EmptyLineAt(s, i) {
      j := LeastEmpty(s, i);
    } else {
      j := k;
    }
  }

  lemma SomeLength(s: string, k: nat) returns (n: nat)
    ensures LengthAfter(s, k, 0, n)
  {
    n := 0;
    if j: nat :| LengthLineAt(s, j, k) {
      var i := LastOfLengths(s, j, k);
      n := LengthAt(s[i..], 0);
    }
  }

  lemma {:induction false} LastOfLengths(s: string, j: nat, k: nat) returns (i: nat)
    requires LengthLineAt(s, j, k)
    ensures LastLengthLine(s, i, k)
    decreases k - j
  {
    if i': nat :| i' > j && LengthLineAt(s, i', k) {
      i := LastOfLengths(s, i', k);
    } else {
      i := j;
    }
  }
}
