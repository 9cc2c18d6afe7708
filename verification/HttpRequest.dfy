/** Requests as text: the parser and the serializer of HTTP requests, and when they
    undo each other (sections 3 and 5 of RFC 9112). */
module HttpRequest {
  import opened Wrappers
  import opened HttpFraming

  datatype Header = Header(name: string, value: string)

  datatype Request = Request(
    verb: string,
    path: string,
    search: string,
    version: string,
    headers: seq<Header>,
    body: string)

  const CRLF: string := "\r\n"

  // ----- The serializer ------------------------------------------------------

  function HeaderLine(h: Header): (r: string)
  {
    h.name + ": " + h.value
  }

  function HeaderText(hs: seq<Header>): (r: string)
  {
    if hs == [] then "" else HeaderLine(hs[0]) + CRLF + HeaderText(hs[1..])
  }

  function Target(r: Request): (s: string)
  {
    if r.search == "" then r.path else r.path + "?" + r.search
  }

  /** `http_serialize_request`. */
  function Serialize(r: Request): (s: string)
  {
    r.verb + " " + (Target(r) + " " + ("HTTP/" + (r.version + CRLF + (HeaderText(r.headers) + (CRLF + r.body)))))
  }

  // ----- The parser ----------------------------------------------------------

  /** `strchr` on a buffer that a NUL ends. */
  function FindInBuffer(s: string, c: char): (r: Option<nat>)
    ensures r.Some? ==> r.value < |s|
  {
    Find(CStr(s), c)
  }

  function LineInBuffer(s: string): (r: Option<Line>)
    ensures r.Some? ==> r.value.skipped < r.value.next <= |s|
  {
    NextCrlf(CStr(s))
  }

  predicate IsBlank(c: char)
  {
    c == ' ' || '\t' <= c <= '\r'
  }

  function SkipBlanks(s: string): (r: string)
  {
    if s != [] && IsBlank(s[0]) then SkipBlanks(s[1..]) else s
  }

  /** One header line, or nothing if it has no colon. */
  function ParseHeader(line: string): (r: Option<Header>)
  {
    match Find(line, ':')
    case None => None
    case Some(i) => Some(Header(line[..i], SkipBlanks(line[i + 1..])))
  }

  /** The header loop: each header is put before the ones already there.  Ends at an
      empty line, or where the text ends. */
  function ParseHeaders(s: string, acc: seq<Header>): (r: Option<(seq<Header>, string)>)
    decreases |s|
  {
    if CStr(s) == [] then Some((acc, s))
    else
      match LineInBuffer(s)
      case None => None
      case Some(line) =>
        if line.skipped == 0 then Some((acc, s[line.next..]))
        else
          match ParseHeader(s[..line.skipped])
          case None => None
          case Some(h) => ParseHeaders(s[line.next..], [h] + acc)
  }

  const PROTOCOL: string := "HTTP/"

  /** The version, if the text names one, and what follows it. */
  function ParseVersion(s: string): (r: Option<(string, string)>)
  {
    if !(PROTOCOL <= CStr(s)) then Some(("1.0", s))
    else
      var t := s[5..];
      match LineInBuffer(t)
      case None => None
      case Some(line) =>
        if line.skipped < 3 || line.skipped > 5 then None
        else Some((t[..line.skipped], t[line.next..]))
  }

  /** The target, split at its first question mark. */
  function SplitTarget(s: string): (r: (string, string))
  {
    match Find(s, '?')
    case None => (s, "")
    case Some(i) => (s[..i], s[i + 1..])
  }

  /** `http_parse_request` on the bytes of one request. */
  function Parse(s: string): (r: Option<Request>)
  {
    match FindInBuffer(s, ' ')
    case None => None
    case Some(i) =>
      if i > 19 then None
      else
        var t := s[i + 1..];
        match FindInBuffer(t, ' ')
        case None => None
        case Some(j) =>
          var (path, search) := SplitTarget(t[..j]);
          match ParseVersion(t[j + 1..])
          case None => None
          case Some((version, u)) =>
            match ParseHeaders(u, [])
            case None => None
            case Some((headers, body)) => Some(Request(s[..i], path, search, version, headers, body))
  }

  // ----- The text in lines -----------------------------------------------------

  function InLines(lines: seq<string>): (s: string)
  {
    if lines == [] then "" else lines[0] + "\r\n" + InLines(lines[1..])
  }

  /** A line for each header. */
  function LinesOf(hs: seq<Header>): (lines: seq<string>)
  {
    seq(|hs|, i requires 0 <= i < |hs| => hs[i].name + ": " + hs[i].value)
  }

  lemma {:induction false} HeadersInLines(hs: seq<Header>, body: string)
    ensures HeaderText(hs) + ("\r\n" + body)
      == InLines(LinesOf(hs) + [""]) + body
  {
    var lines := LinesOf(hs) + [""];
    if hs == [] {
      assert lines == [""] && lines[1..] == [];
      assert "" + "\r\n" + "" == "\r\n";
    } else {
      var first, rest := hs[0].name + ": " + hs[0].value, hs[1..];
      HeadersInLines(rest, body);
      var more := LinesOf(rest) + [""];
      assert lines[0] == first && lines[1..] == more;
      LineBefore(first, HeaderText(rest), "\r\n" + body, InLines(more), body);
    }
  }

  lemma LineBefore(line: string, a: string, b: string, c: string, d: string)
    requires a + b == c + d
    ensures line + "\r\n" + a + b == line + "\r\n" + c + d
  {
    assert line + "\r\n" + a + b == line + "\r\n" + (a + b);
    assert line + "\r\n" + c + d == line + "\r\n" + (c + d);
  }

  /** A request is written as its request line, a line for each header in order, an empty
      line, and the body. */
  lemma WrittenInLines(r: Request)
    ensures Serialize(r)
      == r.verb + " " + r.path + (if r.search == "" then "" else "?" + r.search) + " HTTP/" + r.version + "\r\n"
         + InLines(LinesOf(r.headers) + [""])
         + r.body
  {
    hide HeaderText, InLines;
    HeadersInLines(r.headers, r.body);
    var lines := InLines(LinesOf(r.headers) + [""]);
    var query := if r.search == "" then "" else "?" + r.search;
    assert Target(r) == r.path + query;
    RequestLineFirst(r.verb, r.path, query, r.version, lines, r.body);
  }

  lemma RequestLineFirst(verb: string, path: string, query: string, version: string, lines: string, body: string)
    ensures verb + " " + ((path + query) + " " + ("HTTP/" + (version + "\r\n" + (lines + body))))
      == verb + " " + path + query + " HTTP/" + version + "\r\n" + lines + body
  {
    assert " " + ("HTTP/" + (version + "\r\n" + (lines + body))) == " HTTP/" + version + "\r\n" + lines + body;
  }

  // ----- Well-formed requests ------------------------------------------------

  predicate GoodHeader(h: Header)
  {
    && ':' !in h.name && '\n' !in h.name && '\0' !in h.name
    && '\n' !in h.value && '\0' !in h.value
    && (h.value != "" ==> !IsBlank(h.value[0]))
  }

  predicate GoodHeaders(hs: seq<Header>)
  {
    forall i :: 0 <= i < |hs| ==> GoodHeader(hs[i])
  }

  /** No part contains what ends it. */
  predicate WellFormed(r: Request)
  {
    && |r.verb| <= 19 && ' ' !in r.verb && '\0' !in r.verb
    && ' ' !in r.path && '?' !in r.path && '\0' !in r.path
    && ' ' !in r.search && '\0' !in r.search
    && 3 <= |r.version| <= 5 && '\n' !in r.version && '\0' !in r.version
    && GoodHeaders(r.headers)
  }

  // ----- Finding in a concatenation ------------------------------------------

  lemma {:induction false} CStrSplit(a: string, b: string)
    requires '\0' !in a
    ensures CStr(a + b) == a + CStr(b)
  {
    if a == [] {
      assert a + b == b;
    } else {
      var s, x, rest := a + b, a[0], a[1..];
      assert s[0] == x && s[1..] == rest + b;
      assert forall c :: c in rest ==> c in a;
      CStrSplit(rest, b);
      assert CStr(s) == [x] + (rest + CStr(b));
      assert [x] + (rest + CStr(b)) == ([x] + rest) + CStr(b);
      assert [x] + rest == a;
    }
  }

  lemma {:induction false} FindSplit(a: string, c: char, b: string)
    requires c !in a
    ensures Find(a + [c] + b, c) == Some(|a|)
  {
    var s := a + [c] + b;
    if a != [] {
      assert a == [a[0]] + a[1..];
      assert s[1..] == a[1..] + [c] + b;
      FindSplit(a[1..], c, b);
    }
  }

  /** A part that does not contain the separator is found in front of it. */
  lemma FindPart(a: string, c: char, b: string)
    requires c !in a && '\0' !in a && c != '\0'
    ensures FindInBuffer(a + [c] + b, c) == Some(|a|)
    ensures (a + [c] + b)[..|a|] == a && (a + [c] + b)[|a| + 1..] == b
  {
    assert '\0' !in a + [c];
    CStrSplit(a + [c], b);
    FindSplit(a, c, CStr(b));
  }

  /** A line that does not contain a line end is found in front of CR LF. */
  lemma LinePart(a: string, b: string)
    requires '\n' !in a && '\0' !in a
    ensures LineInBuffer(a + CRLF + b) == Some(Line(|a|, |a| + 2))
    ensures (a + CRLF + b)[..|a|] == a && (a + CRLF + b)[|a| + 2..] == b
  {
    var s := a + CRLF + b;
    var ar := a + ['\r'];
    assert s == ar + ['\n'] + b;
    FindPart(ar, '\n', b);
    assert '\0' !in a + CRLF;
    CStrSplit(a + CRLF, b);
    assert CStr(s)[|a|] == '\r';
  }

  lemma SkipBlanksOne(v: string)
    requires v != "" ==> !IsBlank(v[0])
    ensures SkipBlanks([' '] + v) == v
  {
    assert ([' '] + v)[1..] == v;
  }

  lemma ParseHeaderLine(h: Header)
    requires GoodHeader(h)
    ensures ParseHeader(HeaderLine(h)) == Some(h)
  {
    var s := HeaderLine(h);
    assert s == h.name + [':'] + ([' '] + h.value);
    FindSplit(h.name, ':', [' '] + h.value);
    assert s[..|h.name|] == h.name && s[|h.name| + 1..] == [' '] + h.value;
    SkipBlanksOne(h.value);
  }

  lemma ParseHeadersEnd(acc: seq<Header>, body: string)
    ensures ParseHeaders(CRLF + body, acc) == Some((acc, body))
  {
    LinePart("", body);
    assert "" + CRLF + body == CRLF + body;
    CStrSplit(CRLF, body);
  }

  lemma ParseHeadersLine(s: string, acc: seq<Header>, n: nat, h: Header)
    requires 0 < n && n + 2 <= |s| && LineInBuffer(s) == Some(Line(n, n + 2))
    requires ParseHeader(s[..n]) == Some(h)
    ensures ParseHeaders(s, acc) == ParseHeaders(s[n + 2..], [h] + acc)
  {
  }

  lemma ParseHeadersStep(h: Header, rest: string, acc: seq<Header>)
    requires GoodHeader(h)
    ensures ParseHeaders(HeaderLine(h) + CRLF + rest, acc) == ParseHeaders(rest, [h] + acc)
  {
    var line := HeaderLine(h);
    LinePart(line, rest);
    ParseHeaderLine(h);
    ParseHeadersLine(line + CRLF + rest, acc, |line|, h);
  }

  /** The header loop gives back the headers that were written, in reverse. */
  lemma {:induction false} ParseHeaderText(hs: seq<Header>, acc: seq<Header>, body: string)
    requires GoodHeaders(hs)
    ensures ParseHeaders(HeaderText(hs) + (CRLF + body), acc) == Some((Reverse(hs) + acc, body))
    decreases |hs|
  {
    hide ParseHeaders, HeaderLine;
    var end := CRLF + body;
    if hs == [] {
      assert HeaderText(hs) + end == end;
      ParseHeadersEnd(acc, body);
      assert Reverse(hs) + acc == acc;
    } else {
      assert GoodHeader(hs[0]);
      var rest := HeaderText(hs[1..]);
      assert HeaderLine(hs[0]) + CRLF + rest + end == HeaderLine(hs[0]) + CRLF + (rest + end);
      ParseHeadersStep(hs[0], rest + end, acc);
      ParseHeaderText(hs[1..], [hs[0]] + acc, body);
      assert Reverse(hs[1..]) + ([hs[0]] + acc) == (Reverse(hs[1..]) + [hs[0]]) + acc;
    }
  }

  // ----- The round trip ------------------------------------------------------

  lemma SplitTargetBack(r: Request)
    requires '?' !in r.path
    ensures SplitTarget(Target(r)) == (r.path, r.search)
  {
    if r.search == "" {
      FindMeaning(r.path, '?');
    } else {
      assert Target(r) == r.path + ['?'] + r.search;
      FindSplit(r.path, '?', r.search);
      assert Target(r)[..|r.path|] == r.path && Target(r)[|r.path| + 1..] == r.search;
    }
  }

  lemma ParseVersionBack(version: string, rest: string)
    requires 3 <= |version| <= 5 && '\n' !in version && '\0' !in version
    ensures ParseVersion("HTTP/" + (version + CRLF + rest)) == Some((version, rest))
  {
    var t := version + CRLF + rest;
    var s := "HTTP/" + t;
    CStrSplit("HTTP/", t);
    assert "HTTP/" <= CStr(s);
    assert s[5..] == t;
    LinePart(version, rest);
  }

  lemma TargetGood(r: Request)
    requires WellFormed(r)
    ensures ' ' !in Target(r) && '\0' !in Target(r)
  {
  }

  /** The parser from its pieces. */
  lemma ParsePieces(s: string, verb: string, target: string, v: string, u: string, r: Request)
    requires |verb| <= 19 && ' ' !in verb && '\0' !in verb
    requires ' ' !in target && '\0' !in target
    requires s == verb + [' '] + (target + [' '] + v)
    requires ParseVersion(v) == Some((r.version, u)) && ParseHeaders(u, []) == Some((r.headers, r.body))
    requires SplitTarget(target) == (r.path, r.search) && r.verb == verb
    ensures Parse(s) == Some(r)
  {
    var t := target + [' '] + v;
    FindPart(verb, ' ', t);
    FindPart(target, ' ', v);
  }

  lemma ParseTail(r: Request)
    requires WellFormed(r)
    ensures var u := HeaderText(r.headers) + (CRLF + r.body);
      && ParseVersion("HTTP/" + (r.version + (CRLF + u))) == Some((r.version, u))
      && ParseHeaders(u, []) == Some((Reverse(r.headers), r.body))
  {
    var u := HeaderText(r.headers) + (CRLF + r.body);
    assert r.version + (CRLF + u) == r.version + CRLF + u;
    ParseVersionBack(r.version, u);
    ParseHeaderText(r.headers, [], r.body);
    assert Reverse(r.headers) + [] == Reverse(r.headers);
  }

  lemma SerializePieces(r: Request)
    ensures var u := HeaderText(r.headers) + (CRLF + r.body);
      Serialize(r) == r.verb + [' '] + (Target(r) + [' '] + ("HTTP/" + (r.version + (CRLF + u))))
  {
  }

  /** Parsing what was serialized gives back the request, its headers in reverse. */
  lemma RoundTrip(r: Request)
    requires WellFormed(r)
    ensures Parse(Serialize(r)) == Some(r.(headers := Reverse(r.headers)))
  {
    var u := HeaderText(r.headers) + (CRLF + r.body);
    TargetGood(r);
    SplitTargetBack(r);
    ParseTail(r);
    SerializePieces(r);
    ParsePieces(Serialize(r), r.verb, Target(r), "HTTP/" + (r.version + (CRLF + u)), u,
                r.(headers := Reverse(r.headers)));
  }

  // ----- What a serialized request does not show ---------------------------------

  /** A request without a version is one of version 1.0. */
  lemma ShortRequest(verb: string, path: string)
    requires |verb| <= 19 && ' ' !in verb && '\0' !in verb
    requires ' ' !in path && '?' !in path && '\0' !in path
    ensures Parse(verb + " " + path + " \r\n") == Some(Request(verb, path, "", "1.0", [], ""))
  {
    var s := verb + " " + path + " \r\n";
    assert s == verb + [' '] + (path + [' '] + CRLF);
    FindMeaning(path, '?');
    assert CRLF + "" == CRLF;
    ParseHeadersEnd([], "");
    assert CStr(CRLF)[..1] == "\r";
    ParsePieces(s, verb, path, CRLF, CRLF, Request(verb, path, "", "1.0", [], ""));
  }

  /** Any white space may stand in front of a header's value, or none. */
  lemma SpacedHeader(name: string, blanks: string, value: string)
    requires ':' !in name
    requires forall c :: c in blanks ==> c == ' ' || 9 <= c as int <= 13
    requires value == "" || !(value[0] == ' ' || 9 <= value[0] as int <= 13)
    ensures ParseHeader(name + ":" + blanks + value) == Some(Header(name, value))
  {
    var s := name + ":" + blanks + value;
    assert s == name + [':'] + (blanks + value);
    FindSplit(name, ':', blanks + value);
    assert s[..|name|] == name && s[|name| + 1..] == blanks + value;
    BlanksAreSkipped(blanks, value);
  }

  lemma {:induction false} BlanksAreSkipped(blanks: string, value: string)
    requires forall c :: c in blanks ==> c == ' ' || 9 <= c as int <= 13
    requires value == "" || !(value[0] == ' ' || 9 <= value[0] as int <= 13)
    ensures SkipBlanks(blanks + value) == value
  {
    if blanks == "" {
      assert blanks + value == value;
    } else {
      assert blanks[0] in blanks;
      assert forall c :: c in blanks[1..] ==> c in blanks;
      assert (blanks + value)[1..] == blanks[1..] + value;
      BlanksAreSkipped(blanks[1..], value);
    }
  }

  // ----- What the parser gives -----------------------------------------------

  lemma {:induction false} CStrMeaning(s: string)
    ensures CStr(s) <= s && '\0' !in CStr(s)
  {
    if s != [] && s[0] != '\0' {
      CStrMeaning(s[1..]);
      assert s == [s[0]] + s[1..];
    }
  }

  /** What is found in front of a separator contains neither it nor a NUL. */
  lemma FoundPart(s: string, c: char)
    requires FindInBuffer(s, c).Some?
    ensures var i := FindInBuffer(s, c).value; c !in s[..i] && '\0' !in s[..i]
  {
    CStrMeaning(s);
    FindMeaning(CStr(s), c);
    var i := FindInBuffer(s, c).value;
    assert s[..i] == CStr(s)[..i];
  }

  lemma FoundLine(s: string)
    requires LineInBuffer(s).Some?
    ensures var n := LineInBuffer(s).value.skipped; '\n' !in s[..n] && '\0' !in s[..n]
  {
    FoundPart(s, '\n');
    var n, i := LineInBuffer(s).value.skipped, FindInBuffer(s, '\n').value;
    assert s[..n] == s[..i][..n];
  }

  lemma {:induction false} SkipBlanksMeaning(s: string)
    ensures var r := SkipBlanks(s);
      && (r != "" ==> !IsBlank(r[0]))
      && (forall c :: c in r ==> c in s)
  {
    if s != [] && IsBlank(s[0]) {
      SkipBlanksMeaning(s[1..]);
      assert s == [s[0]] + s[1..];
    }
  }

  lemma ParsedHeaderGood(line: string)
    requires '\n' !in line && '\0' !in line && ParseHeader(line).Some?
    ensures GoodHeader(ParseHeader(line).value)
  {
    FindMeaning(line, ':');
    var i := Find(line, ':').value;
    SkipBlanksMeaning(line[i + 1..]);
    assert forall c :: c in line[..i] ==> c in line;
    assert forall c :: c in line[i + 1..] ==> c in line;
  }

  lemma {:induction false} ParsedHeadersGood(s: string, acc: seq<Header>)
    requires GoodHeaders(acc)
    ensures ParseHeaders(s, acc).Some? ==> GoodHeaders(ParseHeaders(s, acc).value.0)
    decreases |s|
  {
    if CStr(s) != [] && LineInBuffer(s).Some? {
      var line := LineInBuffer(s).value;
      var text := s[..line.skipped];
      if line.skipped > 0 && ParseHeader(text).Some? {
        FoundLine(s);
        ParsedHeaderGood(text);
        ParsedHeadersGood(s[line.next..], [ParseHeader(text).value] + acc);
      }
    }
  }

  lemma ParsedVersionGood(s: string)
    requires ParseVersion(s).Some?
    ensures var v := ParseVersion(s).value.0; 3 <= |v| <= 5 && '\n' !in v && '\0' !in v
  {
    if PROTOCOL <= CStr(s) { FoundLine(s[5..]); }
  }

  lemma SplitTargetGood(s: string)
    requires ' ' !in s && '\0' !in s
    ensures var (path, search) := SplitTarget(s);
      && ' ' !in path && '?' !in path && '\0' !in path
      && ' ' !in search && '\0' !in search
  {
    FindMeaning(s, '?');
    var (path, search) := SplitTarget(s);
    assert forall c :: c in path ==> c in s;
    assert forall c :: c in search ==> c in s;
  }

  /** Every request the parser accepts is well formed. */
  lemma ParsedIsWellFormed(s: string)
    requires Parse(s).Some?
    ensures WellFormed(Parse(s).value)
  {
    hide ParseHeaders, ParseVersion, SplitTarget, FindInBuffer, GoodHeaders;
    FoundPart(s, ' ');
    var i := FindInBuffer(s, ' ').value;
    var t := s[i + 1..];
    FoundPart(t, ' ');
    var j := FindInBuffer(t, ' ').value;
    SplitTargetGood(t[..j]);
    ParsedVersionGood(t[j + 1..]);
    var (_, u) := ParseVersion(t[j + 1..]).value;
    ParsedHeadersGood(u, []);
  }

  lemma {:induction false} ReverseGood(hs: seq<Header>)
    requires GoodHeaders(Reverse(hs))
    ensures GoodHeaders(hs)
  {
    if hs != [] {
      var n := |hs| - 1;
      assert forall i :: 0 <= i < n ==> Reverse(hs)[i] == Reverse(hs[1..])[i];
      ReverseGood(hs[1..]);
      assert Reverse(hs)[n] == hs[0];
      assert hs == [hs[0]] + hs[1..];
    }
  }

  /** The round trip gives back the request, headers reversed, exactly when the request
      is well formed. */
  lemma RoundTripExactly(r: Request)
    ensures Parse(Serialize(r)) == Some(r.(headers := Reverse(r.headers))) <==> WellFormed(r)
  {
    if WellFormed(r) {
      RoundTrip(r);
    } else if Parse(Serialize(r)) == Some(r.(headers := Reverse(r.headers))) {
      ParsedIsWellFormed(Serialize(r));
      ReverseGood(r.headers);
    }
  }

  /** Forwarding a request that was parsed loses nothing: parsing the forwarded text
      gives the same request, headers reversed. */
  lemma ForwardedIsSame(s: string)
    requires Parse(s).Some?
    ensures var r := Parse(s).value; Parse(Serialize(r)) == Some(r.(headers := Reverse(r.headers)))
  {
    ParsedIsWellFormed(s);
    RoundTrip(Parse(s).value);
  }

  // ----- The loops -----------------------------------------------------------

  /** The header loop of `http_parse_request`, on the text after the request line. */
  method ParseHeaderLines(text: string) returns (ok: bool, headers: seq<Header>, body: string)
    ensures ok <==> ParseHeaders(text, []).Some?
    ensures ok ==> ParseHeaders(text, []) == Some((headers, body))
  {
    var buf := text;
    headers := [];
    while CStr(buf) != []
      invariant ParseHeaders(text, []) == ParseHeaders(buf, headers)
      decreases |buf|
    {
      var p := LineInBuffer(buf);
      if p.None? {
        return false, headers, "";
      }
      if p.value.skipped == 0 {
        return true, headers, buf[p.value.next..];
      }
      var h := ParseHeader(buf[..p.value.skipped]);
      if h.None? {
        return false, headers, "";
      }
      headers := [h.value] + headers;
      buf := buf[p.value.next..];
    }
    return true, headers, buf;
  }

  /** `http_serialize_request` into its buffer. */
  method SerializeRequest(r: Request) returns (wrbuf: string)
    ensures wrbuf == Serialize(r)
  {
    wrbuf := r.verb + " " + r.path + (if r.search != "" then "?" else "") + r.search;
    wrbuf := wrbuf + " HTTP/" + r.version + CRLF;
    ghost var line := wrbuf;
    var i := 0;
    assert r.headers[0..] == r.headers;
    while i < |r.headers|
      invariant 0 <= i <= |r.headers|
      invariant wrbuf + HeaderText(r.headers[i..]) == line + HeaderText(r.headers)
    {
      var h := r.headers[i];
      ghost var rest := HeaderText(r.headers[i + 1..]);
      assert r.headers[i..][0] == h && r.headers[i..][1..] == r.headers[i + 1..];
      assert wrbuf + (HeaderLine(h) + CRLF + rest) == (wrbuf + (HeaderLine(h) + CRLF)) + rest;
      wrbuf := wrbuf + (h.name + ": " + h.value + CRLF);
      i := i + 1;
    }
    assert wrbuf == line + HeaderText(r.headers) by {
      assert r.headers[i..] == [];
      assert wrbuf + "" == wrbuf;
    }
    wrbuf := wrbuf + CRLF;
    wrbuf := wrbuf + r.body;
    Written(r, line);
  }

  lemma Written(r: Request, line: string)
    requires line == r.verb + " " + r.path + (if r.search != "" then "?" else "") + r.search
                     + " HTTP/" + r.version + CRLF
    ensures line + HeaderText(r.headers) + CRLF + r.body == Serialize(r)
  {
    assert line == r.verb + " " + Target(r) + " HTTP/" + r.version + CRLF;
    Flatten(r.verb, Target(r), r.version, HeaderText(r.headers), r.body);
  }

  lemma Flatten(a: string, b: string, c: string, d: string, e: string)
    ensures a + " " + b + " HTTP/" + c + CRLF + d + CRLF + e
         == a + " " + (b + " " + ("HTTP/" + (c + CRLF + (d + (CRLF + e)))))
  {
    assert " HTTP/" == " " + "HTTP/";
  }
}
