/** Serialized requests on one connection: the scanner cuts the stream exactly between
    them, and the parser gives each of them back. */
module HttpPipeline {
  import opened Wrappers
  import opened HttpQueue
  import opened HttpFraming
  import opened HttpRequest

  function RequestLine(r: Request): (s: string)
  {
    r.verb + " " + Target(r) + " HTTP/" + r.version
  }

  /** Everything in front of the body. */
  function HeadText(r: Request): (s: string)
  {
    RequestLine(r) + CRLF + (HeaderText(r.headers) + CRLF)
  }

  /** The length that the headers declare: the leading digits of the last header of
      that name, whatever the case of its letters. */
  function DeclaredLength(hs: seq<Header>, n: nat): (r: nat)
  {
    if hs == [] then n else DeclaredLength(hs[1..], DeclaredBy(hs[0], n))
  }

  function DeclaredBy(h: Header, n: nat): (r: nat)
  {
    if |h.name| == 14 && StartsWithNoCase(h.name, "Content-Length") then Digits(h.value, 0) else n
  }

  /** Well formed, without line ends in the request line, short enough for the scanner to
      see the whole head, and with the right content length. */
  predicate Framed(r: Request)
  {
    && WellFormed(r)
    && '\n' !in r.verb && '\n' !in r.path && '\n' !in r.search
    && |HeadText(r)| <= MAX_HTTP_HEADER - 1
    && DeclaredLength(r.headers, 0) == |r.body|
  }

  // ----- Lines ---------------------------------------------------------------

  lemma CrlfPart(a: string, b: string)
    requires '\n' !in a
    ensures NextCrlf(a + CRLF + b) == Some(Line(|a|, |a| + 2))
    ensures (a + CRLF + b)[|a| + 2..] == b
  {
    var s := a + CRLF + b;
    assert s == (a + ['\r']) + ['\n'] + b;
    FindSplit(a + ['\r'], '\n', b);
    assert s[|a|] == '\r';
  }

  lemma {:induction false} DigitsStop(s: string, n: nat)
    ensures Digits(s + CRLF, n) == Digits(s, n)
  {
    if s == [] {
      assert s + CRLF == CRLF;
    } else {
      assert (s + CRLF)[1..] == s[1..] + CRLF;
      if IsDigit(s[0]) { DigitsStop(s[1..], n * 10 + (s[0] as int - '0' as int)); }
    }
  }

  /** A header line declares a length exactly when its name says so. */
  lemma HeaderDeclares(h: Header, n: nat)
    requires GoodHeader(h)
    ensures LengthAt(HeaderLine(h) + CRLF, n) == DeclaredBy(h, n)
  {
    var s := HeaderLine(h) + CRLF;
    if |h.name| == 14 && StartsWithNoCase(h.name, "Content-Length") {
      NameMatches(h);
      assert s[15..] == [' '] + (h.value + CRLF);
      SpaceThenValue(h.value);
      DigitsStop(h.value, 0);
    } else if StartsWithNoCase(s, CONTENT_LENGTH) {
      NameIsContentLength(h);
    }
  }

  lemma NameMatches(h: Header)
    requires |h.name| == 14 && StartsWithNoCase(h.name, "Content-Length")
    ensures StartsWithNoCase(HeaderLine(h) + CRLF, CONTENT_LENGTH)
  {
    var s := HeaderLine(h) + CRLF;
    assert s[14] == ':';
    forall i | 0 <= i < 15 ensures Lower(s[i]) == Lower(CONTENT_LENGTH[i]) {
      if i < 14 {
        assert s[i] == h.name[i];
        assert CONTENT_LENGTH[i] == "Content-Length"[i];
      }
    }
  }

  lemma NameIsContentLength(h: Header)
    requires GoodHeader(h) && StartsWithNoCase(HeaderLine(h) + CRLF, CONTENT_LENGTH)
    ensures |h.name| == 14 && StartsWithNoCase(h.name, "Content-Length")
  {
    var s, m := HeaderLine(h) + CRLF, |h.name|;
    assert s[m] == ':';
    assert Lower(s[14]) == ':';
    assert s[14] == ':';
    assert forall i :: 0 <= i < 14 ==> Lower(CONTENT_LENGTH[i]) != ':';
    forall i | 0 <= i < 14 ensures Lower(h.name[i]) == Lower("Content-Length"[i]) {
      assert s[i] == h.name[i] && CONTENT_LENGTH[i] == "Content-Length"[i];
    }
  }

  lemma SpaceThenValue(v: string)
    requires v != "" ==> !IsBlank(v[0])
    ensures SkipSpaces([' '] + (v + CRLF)) == v + CRLF
  {
    assert ([' '] + (v + CRLF))[1..] == v + CRLF;
  }

  // ----- The scanner on a serialized head ------------------------------------

  lemma ScanEnd(w: string, sz: nat, len: nat, n: nat)
    requires len + 2 + n <= sz
    ensures LengthAt(CRLF + w, n) == n
    ensures Scan(CRLF + w, sz, len, n) == len + 2 + n
  {
    assert "" + CRLF + w == CRLF + w;
    CrlfPart("", w);
    assert (CRLF + w)[0] == '\r';
    assert Lower('\r') != Lower(CONTENT_LENGTH[0]);
  }

  lemma ScanLine(line: string, rest: string, sz: nat, len: nat, n: nat)
    requires '\n' !in line && line != ""
    ensures Scan(line + CRLF + rest, sz, len, n)
         == Scan(rest, sz, len + |line| + 2, LengthAt(rest, n))
  {
    CrlfPart(line, rest);
  }

  lemma ScanHeader(h: Header, rest: string, s: string, sz: nat, len: nat, n: nat)
    requires GoodHeader(h) && s == HeaderLine(h) + CRLF + rest
    ensures Scan(s, sz, len, LengthAt(s, n))
         == Scan(rest, sz, len + |HeaderLine(h)| + 2, LengthAt(rest, DeclaredBy(h, n)))
  {
    LengthOfLine(h, rest, n);
    ScanLine(HeaderLine(h), rest, sz, len, DeclaredBy(h, n));
  }

  lemma {:induction false} ScanHeaders(hs: seq<Header>, w: string, sz: nat, len: nat, n: nat)
    requires GoodHeaders(hs)
    requires len + |HeaderText(hs)| + 2 + DeclaredLength(hs, n) <= sz
    ensures var s := HeaderText(hs) + (CRLF + w);
      Scan(s, sz, len, LengthAt(s, n)) == len + |HeaderText(hs)| + 2 + DeclaredLength(hs, n)
    decreases |hs|
  {
    hide Scan, LengthAt, HeaderLine, DeclaredBy;
    var end := CRLF + w;
    if hs == [] {
      assert HeaderText(hs) + end == end;
      ScanEnd(w, sz, len, n);
    } else {
      assert GoodHeader(hs[0]);
      var line, rest := HeaderLine(hs[0]), HeaderText(hs[1..]);
      var s := HeaderText(hs) + end;
      LineFirst(line, rest, end);
      ScanHeader(hs[0], rest + end, s, sz, len, n);
      ScanHeaders(hs[1..], w, sz, len + |line| + 2, DeclaredBy(hs[0], n));
    }
  }

  lemma LineFirst(line: string, rest: string, end: string)
    ensures line + CRLF + rest + end == line + CRLF + (rest + end)
  {
  }

  lemma LengthOfLine(h: Header, rest: string, n: nat)
    requires GoodHeader(h)
    ensures LengthAt(HeaderLine(h) + CRLF + rest, n) == DeclaredBy(h, n)
  {
    HeaderDeclares(h, n);
    var s := HeaderLine(h) + CRLF;
    assert s[|s| - 1] == '\n';
    LengthAtExtends(s, rest, n);
  }

  lemma HeadIsClean(r: Request)
    requires Framed(r)
    ensures '\n' !in RequestLine(r) && '\0' !in HeadText(r)
  {
    HeadersClean(r.headers);
  }

  lemma {:induction false} HeadersClean(hs: seq<Header>)
    requires GoodHeaders(hs)
    ensures '\0' !in HeaderText(hs)
  {
    if hs != [] {
      assert GoodHeader(hs[0]);
      HeadersClean(hs[1..]);
    }
  }

  lemma Regroup(a: string, b: string, c: string, d: string)
    ensures a + b + (c + b) + d == a + b + (c + (b + d))
  {
  }

  lemma SerializedParts(r: Request)
    ensures Serialize(r) == HeadText(r) + r.body
  {
    Regroup(RequestLine(r), CRLF, HeaderText(r.headers), r.body);
  }

  lemma ScanText(line: string, hs: seq<Header>, w: string, sz: nat)
    requires '\n' !in line && line != "" && GoodHeaders(hs)
    requires |line| + 2 + |HeaderText(hs)| + 2 + DeclaredLength(hs, 0) <= sz
    ensures Scan(line + CRLF + (HeaderText(hs) + (CRLF + w)), sz, 0, 0)
         == |line| + 2 + |HeaderText(hs)| + 2 + DeclaredLength(hs, 0)
  {
    hide Scan, LengthAt, HeaderText, DeclaredLength, GoodHeader;
    ScanLine(line, HeaderText(hs) + (CRLF + w), sz, 0, 0);
    ScanHeaders(hs, w, sz, |line| + 2, 0);
  }

  lemma ScanHead(r: Request, w: string, sz: nat)
    requires Framed(r) && |HeadText(r)| + |r.body| <= sz
    ensures Scan(HeadText(r) + w, sz, 0, 0) == |HeadText(r)| + |r.body|
  {
    HeadIsClean(r);
    Regroup(RequestLine(r), CRLF, HeaderText(r.headers), w);
    ScanText(RequestLine(r), r.headers, w, sz);
  }

  /** The scanner finds exactly the serialized request, whatever comes after it. */
  lemma CheckSerialized(r: Request, x: string)
    requires Framed(r)
    ensures RequestCheck(Serialize(r) + x) == |Serialize(r)| > 2
  {
    var q, head, n := Serialize(r) + x, HeadText(r), MAX_HTTP_HEADER - 1;
    SerializedParts(r);
    assert q == head + (r.body + x);
    var w := Take(r.body + x, n - |head|);
    assert Take(q, n) == head + w;
    HeadIsClean(r);
    CStrSplit(head, w);
    ScanHead(r, CStr(w), |q|);
  }

  function Texts(rs: seq<Request>): (ts: seq<string>)
  {
    seq(|rs|, i requires 0 <= i < |rs| => Serialize(rs[i]))
  }

  /** One request at the head of the bytes is cut off. */
  lemma CutsFirst(t: string, rest: string)
    requires RequestCheck(t + rest) == |t| > 2
    ensures Cut(t + rest) == ([t] + Cut(rest).0, Cut(rest).1)
  {
    hide RequestCheck;
    assert (t + rest)[..|t|] == t && (t + rest)[|t|..] == rest;
  }

  lemma {:induction false} JoinedAreCut(rs: seq<Request>)
    requires forall i :: 0 <= i < |rs| ==> Framed(rs[i])
    ensures Cut(Join(Texts(rs))) == (Texts(rs), "")
  {
    if rs != [] {
      var t, more := Serialize(rs[0]), Texts(rs[1..]);
      assert Texts(rs) == [t] + more && ([t] + more)[1..] == more;
      hide Serialize, RequestCheck, Framed, Cut, Texts;
      JoinedAreCut(rs[1..]);
      CheckSerialized(rs[0], Join(more));
      CutsFirst(t, Join(more));
    } else {
      assert Cut("").1 == "";
    }
  }

  /** Any number of requests written to one connection are cut exactly where they were
      joined, and each is parsed back to itself, headers reversed. */
  lemma PipelineRoundTrip(rs: seq<Request>)
    requires forall i :: 0 <= i < |rs| ==> Framed(rs[i])
    ensures Cut(Join(Texts(rs))) == (Texts(rs), "")
    ensures forall i :: 0 <= i < |rs| ==>
      Parse(Texts(rs)[i]) == Some(rs[i].(headers := Reverse(rs[i].headers)))
  {
    JoinedAreCut(rs);
    forall i | 0 <= i < |rs|
      ensures Parse(Texts(rs)[i]) == Some(rs[i].(headers := Reverse(rs[i].headers)))
    {
      hide Parse, Serialize, Cut, Join;
      RoundTrip(rs[i]);
    }
  }
}
