/** Cutting requests off a stream of bytes: the message-length scanner and the loop
    that uses it (section 6.3 of RFC 9112). */
module HttpFraming {
  import opened Wrappers
  import opened HttpQueue

  const MAX_HTTP_HEADER: nat := 4096

  // ----- C strings -----------------------------------------------------------

  /** The bytes before the first NUL. */
  function CStr(s: string): (t: string)
    ensures |t| <= |s|
  {
    if s == [] || s[0] == '\0' then [] else [s[0]] + CStr(s[1..])
  }

  /** `strchr` on a C string: the first place of `c`. */
  function Find(s: string, c: char): (r: Option<nat>)
    ensures r.Some? ==> r.value < |s|
  {
    if s == [] then None
    else if s[0] == c then Some(0)
    else
      match Find(s[1..], c)
      case None => None
      case Some(i) => Some(i + 1)
  }

  lemma {:induction false} FindMeaning(s: string, c: char)
    ensures Find(s, c).None? <==> c !in s
    ensures Find(s, c).Some? ==> s[Find(s, c).value] == c && c !in s[..Find(s, c).value]
  {
    if s != [] && s[0] != c {
      FindMeaning(s[1..], c);
      assert s == [s[0]] + s[1..];
      if Find(s[1..], c).Some? {
        var i := Find(s[1..], c).value;
        assert s[..i + 1] == [s[0]] + s[1..][..i];
      }
    }
  }

  /** How long a line is without its line end, and where the next one starts. */
  datatype Line = Line(skipped: nat, next: nat)

  /** `next_crlf`. */
  function NextCrlf(s: string): (r: Option<Line>)
    ensures r.Some? ==> r.value.skipped < r.value.next <= |s|
  {
    match Find(s, '\n')
    case None => None
    case Some(i) => Some(Line(if i > 0 && s[i - 1] == '\r' then i - 1 else i, i + 1))
  }

  // ----- Content-Length ------------------------------------------------------

  function Lower(c: char): (r: char)
  {
    if 'A' <= c <= 'Z' then c - 'A' + 'a' else c
  }

  /** Whether `s` starts with `p`, letters compared without case. */
  predicate StartsWithNoCase(s: string, p: string)
  {
    |p| <= |s| && forall i :: 0 <= i < |p| ==> Lower(s[i]) == Lower(p[i])
  }

  function SkipSpaces(s: string): (r: string)
  {
    if s != [] && s[0] == ' ' then SkipSpaces(s[1..]) else s
  }

  predicate IsDigit(c: char)
  {
    '0' <= c <= '9'
  }

  function Digits(s: string, n: nat): (r: nat)
  {
    if s != [] && IsDigit(s[0]) then Digits(s[1..], n * 10 + (s[0] as int - '0' as int)) else n
  }

  const CONTENT_LENGTH: string := "Content-Length:"

  /** The content length after looking at the line that `s` starts with. */
  function LengthAt(s: string, before: nat): (r: nat)
  {
    if StartsWithNoCase(s, CONTENT_LENGTH) then Digits(SkipSpaces(s[15..]), 0) else before
  }

  // ----- The scanner ---------------------------------------------------------

  /** The loop of `package_check` from the line that `s` starts with: `len` bytes of
      header are behind it, `sz` bytes have been received. */
  function Scan(s: string, sz: nat, len: nat, contentLen: nat): (r: nat)
    decreases |s|
  {
    if s == [] then 0
    else
      match NextCrlf(s)
      case None => if sz >= MAX_HTTP_HEADER - 1 then MAX_HTTP_HEADER - 1 else 0
      case Some(line) =>
        var len' := len + line.next;
        if line.skipped == 0 then
          if len' + contentLen <= sz then len' + contentLen else 0
        else
          Scan(s[line.next..], sz, len', LengthAt(s[line.next..], contentLen))
  }

  /** `request_check`: the length of the request at the head of the received bytes, or 0
      if it is not complete. */
  function RequestCheck(q: string): (r: nat)
  {
    Scan(CStr(Take(q, MAX_HTTP_HEADER - 1)), |q|, 0, 0)
  }

  /** `package_check`, the loop itself. */
  method PackageCheck(buf: string, sz: nat) returns (r: nat)
    ensures r == Scan(CStr(buf), sz, 0, 0)
  {
    var s := CStr(buf);
    var contentLen: nat, len: nat := 0, 0;
    while s != []
      invariant Scan(s, sz, len, contentLen) == Scan(CStr(buf), sz, 0, 0)
      decreases |s|
    {
      var b := NextCrlf(s);
      if b.None? {
        if sz >= MAX_HTTP_HEADER - 1 {
          return MAX_HTTP_HEADER - 1;
        }
        return 0;
      }
      len := len + b.value.next;
      if b.value.skipped == 0 {
        if len + contentLen <= sz {
          return len + contentLen;
        }
        return 0;
      }
      s := s[b.value.next..];
      contentLen := LengthAt(s, contentLen);
    }
    return 0;
  }

  // ----- A positive answer stays ---------------------------------------------

  lemma {:induction false} FindExtends(s: string, u: string, c: char)
    requires Find(s, c).Some?
    ensures Find(s + u, c) == Find(s, c)
  {
    if s[0] != c {
      assert (s + u)[1..] == s[1..] + u;
      FindExtends(s[1..], u, c);
    }
  }

  lemma NextCrlfExtends(s: string, u: string)
    requires NextCrlf(s).Some?
    ensures NextCrlf(s + u) == NextCrlf(s)
  {
    FindExtends(s, u, '\n');
  }

  lemma {:induction false} DigitsExtends(s: string, u: string, n: nat)
    requires '\n' in s
    ensures Digits(s + u, n) == Digits(s, n)
  {
    if IsDigit(s[0]) {
      assert s == [s[0]] + s[1..];
      assert (s + u)[1..] == s[1..] + u;
      DigitsExtends(s[1..], u, n * 10 + (s[0] as int - '0' as int));
    }
  }

  lemma {:induction false} SpacesExtend(s: string, u: string)
    requires '\n' in s
    ensures SkipSpaces(s + u) == SkipSpaces(s) + u && '\n' in SkipSpaces(s)
  {
    if s[0] == ' ' {
      assert s == [s[0]] + s[1..];
      assert (s + u)[1..] == s[1..] + u;
      SpacesExtend(s[1..], u);
    }
  }

  /** The length read from a line that is complete does not depend on what follows. */
  lemma LengthAtExtends(s: string, u: string, before: nat)
    requires '\n' in s
    ensures LengthAt(s + u, before) == LengthAt(s, before)
  {
    if StartsWithNoCase(s, CONTENT_LENGTH) {
      assert StartsWithNoCase(s + u, CONTENT_LENGTH);
      var k :| 0 <= k < |s| && s[k] == '\n';
      assert k >= 15 by { NoNewline(s, k); }
      assert s[15..][k - 15] == '\n';
      assert (s + u)[15..] == s[15..] + u;
      SpacesExtend(s[15..], u);
      DigitsExtends(SkipSpaces(s[15..]), u, 0);
    } else if StartsWithNoCase(s + u, CONTENT_LENGTH) {
      var k :| 0 <= k < |s| && s[k] == '\n';
      assert (s + u)[k] == '\n';
      NoNewline(s + u, k);
    }
  }

  lemma NoNewline(s: string, k: nat)
    requires StartsWithNoCase(s, CONTENT_LENGTH) && k < |s| && s[k] == '\n'
    ensures k >= 15
  {
    assert forall i :: 0 <= i < 15 ==> Lower(CONTENT_LENGTH[i]) != '\n';
  }

  /** More bytes behind the header do not change the length. */
  lemma {:induction false} ScanLonger(s: string, sz: nat, sz': nat, len: nat, contentLen: nat)
    requires sz <= sz' && Scan(s, sz, len, contentLen) > 0
    ensures Scan(s, sz', len, contentLen) == Scan(s, sz, len, contentLen)
    decreases |s|
  {
    var line := NextCrlf(s);
    if line.Some? && line.value.skipped != 0 {
      var t := s[line.value.next..];
      ScanLonger(t, sz, sz', len + line.value.next, LengthAt(t, contentLen));
    }
  }

  /** The first line of `s` is the first line of `s + u`. */
  lemma ScanStep(s: string, u: string, sz: nat, len: nat, contentLen: nat)
    requires NextCrlf(s).Some?
    ensures var line := NextCrlf(s).value;
      && (line.skipped == 0 ==> Scan(s + u, sz, len, contentLen) == Scan(s, sz, len, contentLen))
      && (line.skipped != 0 ==>
            Scan(s + u, sz, len, contentLen)
            == Scan(s[line.next..] + u, sz, len + line.next, LengthAt(s[line.next..] + u, contentLen)))
  {
    NextCrlfExtends(s, u);
    var line := NextCrlf(s).value;
    assert (s + u)[line.next..] == s[line.next..] + u;
  }

  lemma ScanRest(s: string, sz: nat, len: nat, contentLen: nat)
    requires Scan(s, sz, len, contentLen) > 0 && sz < MAX_HTTP_HEADER - 1
    ensures NextCrlf(s).Some?
    ensures var line := NextCrlf(s).value;
      line.skipped != 0 ==>
        Scan(s, sz, len, contentLen)
        == Scan(s[line.next..], sz, len + line.next, LengthAt(s[line.next..], contentLen))
  {
  }

  /** A header found complete is found complete, with the same length, when more of
      the bytes are looked at. */
  lemma {:induction false} ScanExtends(s: string, u: string, sz: nat, len: nat, contentLen: nat)
    requires Scan(s, sz, len, contentLen) > 0 && sz < MAX_HTTP_HEADER - 1
    ensures Scan(s + u, sz, len, contentLen) == Scan(s, sz, len, contentLen)
    decreases |s|
  {
    ScanRest(s, sz, len, contentLen);
    ScanStep(s, u, sz, len, contentLen);
    var line := NextCrlf(s).value;
    if line.skipped != 0 {
      var t, len' := s[line.next..], len + line.next;
      var contentLen' := LengthAt(t, contentLen);
      ScanHasLine(t, sz, len', contentLen');
      LengthAtExtends(t, u, contentLen);
      ScanExtends(t, u, sz, len', contentLen');
    }
  }

  lemma ScanHasLine(s: string, sz: nat, len: nat, contentLen: nat)
    requires Scan(s, sz, len, contentLen) > 0 && sz < MAX_HTTP_HEADER - 1
    ensures '\n' in s
  {
    FindMeaning(s, '\n');
  }

  /** What is found is within the bytes received. */
  lemma {:induction false} ScanWithin(s: string, sz: nat, len: nat, contentLen: nat)
    ensures Scan(s, sz, len, contentLen) <= sz
    decreases |s|
  {
    if s != [] && NextCrlf(s).Some? && NextCrlf(s).value.skipped != 0 {
      var line := NextCrlf(s).value;
      ScanWithin(s[line.next..], sz, len + line.next, LengthAt(s[line.next..], contentLen));
    }
  }

  lemma {:induction false} CStrExtends(s: string, x: string)
    ensures CStr(s) <= CStr(s + x)
  {
    if s != [] && s[0] != '\0' {
      assert (s + x)[1..] == s[1..] + x;
      CStrExtends(s[1..], x);
    }
  }

  /** A positive answer of `request_check` is the same for every extension. */
  lemma CheckIsStable(q: string, x: string)
    requires RequestCheck(q) > 0
    ensures RequestCheck(q + x) == RequestCheck(q) <= |q|
  {
    var n := MAX_HTTP_HEADER - 1;
    var s, t := CStr(Take(q, n)), CStr(Take(q + x, n));
    ScanWithin(s, |q|, 0, 0);
    if |q| >= n {
      assert Take(q + x, n) == Take(q, n);
      ScanLonger(s, |q|, |q + x|, 0, 0);
    } else {
      assert Take(q, n) == q;
      assert Take(q + x, n) == q + Take(x, n - |q|);
      CStrExtends(q, Take(x, n - |q|));
      var u := t[|s|..];
      assert t == s + u;
      ScanExtends(s, u, |q|, 0, 0);
      ScanLonger(t, |q|, |q + x|, 0, 0);
    }
  }

  // ----- Cutting -------------------------------------------------------------

  /** The requests that the loop of `http_io` cuts off the received bytes, and the bytes
      left.  An answer of 2 or less stops the loop: a line end alone is never cut. */
  function Cut(q: string): (r: (seq<string>, string))
    decreases |q|
  {
    var n := RequestCheck(q);
    if n <= 2 then ([], q)
    else
      ScanWithin(CStr(Take(q, MAX_HTTP_HEADER - 1)), |q|, 0, 0);
      var (rs, rest) := Cut(q[n..]);
      ([q[..n]] + rs, rest)
  }

  function Join(rs: seq<string>): (r: string)
  {
    if rs == [] then [] else rs[0] + Join(rs[1..])
  }

  /** Nothing is lost or invented by cutting. */
  lemma {:induction false} CutKeepsBytes(q: string)
    ensures Join(Cut(q).0) + Cut(q).1 == q
    decreases |q|
  {
    var n := RequestCheck(q);
    if n > 2 {
      ScanWithin(CStr(Take(q, MAX_HTTP_HEADER - 1)), |q|, 0, 0);
      CutKeepsBytes(q[n..]);
      var (rs, rest) := Cut(q[n..]);
      assert ([q[..n]] + rs)[1..] == rs;
      assert q[..n] + (Join(rs) + rest) == q;
    }
  }

  /** Cutting what has been received, and cutting again when more comes, is cutting
      everything at once. */
  lemma {:induction false} CutAppend(a: string, b: string)
    ensures var (rs, rest) := Cut(a);
      Cut(a + b) == (rs + Cut(rest + b).0, Cut(rest + b).1)
    decreases |a|
  {
    var n := RequestCheck(a);
    if n > 2 {
      CheckIsStable(a, b);
      assert (a + b)[..n] == a[..n] && (a + b)[n..] == a[n..] + b;
      CutAppend(a[n..], b);
      var (rs, rest) := Cut(a[n..]);
      assert [a[..n]] + (rs + Cut(rest + b).0) == ([a[..n]] + rs) + Cut(rest + b).0;
    } else {
      assert [] + Cut(a + b).0 == Cut(a + b).0;
    }
  }

  /** The cuts made while fragments come in one after the other. */
  function CutFragments(rest: string, fragments: seq<string>): (r: (seq<string>, string))
    decreases |fragments|
  {
    if fragments == [] then ([], rest)
    else
      var (rs, left) := Cut(rest + fragments[0]);
      var (more, end) := CutFragments(left, fragments[1..]);
      (rs + more, end)
  }

  lemma CutFirst(rest: string, f: string, tail: string)
    ensures var (rs, left) := Cut(rest + f);
      Cut(rest + (f + tail)) == (rs + Cut(left + tail).0, Cut(left + tail).1)
  {
    hide Cut;
    CutAppend(rest + f, tail);
    assert rest + (f + tail) == (rest + f) + tail;
  }

  lemma {:induction false} FragmentsFrom(rest: string, fragments: seq<string>)
    requires RequestCheck(rest) <= 2
    ensures CutFragments(rest, fragments) == Cut(rest + Join(fragments))
    decreases |fragments|
  {
    if fragments == [] {
      assert rest + [] == rest;
    } else {
      LeftIsIncomplete(rest + fragments[0]);
      FragmentsFrom(Cut(rest + fragments[0]).1, fragments[1..]);
      CutFirst(rest, fragments[0], Join(fragments[1..]));
    }
  }

  lemma {:induction false} LeftIsIncomplete(q: string)
    ensures RequestCheck(Cut(q).1) <= 2
    decreases |q|
  {
    var n := RequestCheck(q);
    if n > 2 {
      ScanWithin(CStr(Take(q, MAX_HTTP_HEADER - 1)), |q|, 0, 0);
      LeftIsIncomplete(q[n..]);
    }
  }

  /** The requests cut depend only on the bytes received, not on how they were split. */
  lemma FragmentationIndependence(fs: seq<string>, gs: seq<string>)
    requires Join(fs) == Join(gs)
    ensures CutFragments("", fs) == CutFragments("", gs)
  {
    FragmentsFrom("", fs);
    FragmentsFrom("", gs);
  }

  // ----- A line end ahead of a request -----------------------------------------

  /** Beyond an empty first line the scanner never answers less than three. */
  lemma {:induction false} ScanBeyond(s: string, sz: nat, len: nat, contentLen: nat)
    requires len >= 2
    ensures Scan(s, sz, len, contentLen) == 0 || Scan(s, sz, len, contentLen) > 2
    decreases |s|
  {
    if s != [] && NextCrlf(s).Some? && NextCrlf(s).value.skipped > 0 {
      var next := s[NextCrlf(s).value.next..];
      ScanBeyond(next, sz, len + NextCrlf(s).value.next, LengthAt(next, contentLen));
    }
  }

  /** The check answers one or two exactly for bytes that start with a line end. */
  lemma LineEndAnswer(q: string)
    ensures 0 < RequestCheck(q) <= 2 <==> "\n" <= q || "\r\n" <= q
  {
    var s := CStr(Take(q, MAX_HTTP_HEADER - 1));
    if s != [] && NextCrlf(s).Some? {
      var line := NextCrlf(s).value;
      FindMeaning(s, '\n');
      if line.skipped > 0 {
        var next := s[line.next..];
        ScanBeyond(next, |q|, line.next, LengthAt(next, 0));
      }
    }
    LineEndFirst(q);
  }

  /** What the scanner sees of bytes that start with a line end. */
  lemma LineEndFirst(q: string)
    ensures var s := CStr(Take(q, MAX_HTTP_HEADER - 1));
      && ("\n" <= q <==> "\n" <= s) && ("\r\n" <= q <==> "\r\n" <= s)
      && ("\n" <= s ==> NextCrlf(s) == Some(Line(0, 1)))
      && ("\r\n" <= s ==> NextCrlf(s) == Some(Line(0, 2)))
  {
    var p := Take(q, MAX_HTTP_HEADER - 1);
    var s := CStr(p);
    if q != [] { assert p[0] == q[0] && s == if q[0] == '\0' then [] else [q[0]] + CStr(p[1..]); }
    if |q| > 1 { assert p[1..][0] == q[1]; }
    if "\n" <= s { assert s[0] == '\n'; }
    if "\r\n" <= s {
      assert s[0] == '\r' && s[1] == '\n';
      assert Find(s[1..], '\n') == Some(0);
    }
  }

  /** A connection on which a line end is ahead of a request is stuck: no bytes that come
      later make anything be cut. */
  lemma LineEndSticks(q: string, fragments: seq<string>)
    requires "\n" <= q || "\r\n" <= q
    ensures CutFragments(q, fragments) == ([], q + Join(fragments))
  {
    LineEndAnswer(q);
    CheckIsStable(q, Join(fragments));
    FragmentsFrom(q, fragments);
  }
}
