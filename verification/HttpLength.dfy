/** The number that a Content-Length header line stands for, and requests on one connection
    that declare their bodies with it. */
module HttpLength {
  import opened Wrappers
  import opened HttpQueue
  import opened HttpFraming
  import opened HttpRequest
  import opened HttpPipeline

  // ----- Decimal numbers -----------------------------------------------------

  /** A number in decimal notation. */
  function Decimal(n: nat): (s: string)
    ensures s != ""
  {
    if n < 10 then ["0123456789"[n]] else Decimal(n / 10) + ["0123456789"[n % 10]]
  }

  function Repeated(c: char, k: nat): (s: string)
    ensures |s| == k
  {
    if k == 0 then "" else [c] + Repeated(c, k - 1)
  }

  ghost predicate StartsWithDigit(s: string)
  {
    s != "" && '0' <= s[0] <= '9'
  }

  lemma DigitAt(d: nat)
    requires d < 10
    ensures "0123456789"[d] == '0' + d as char
  {
  }

  lemma {:induction false} DecimalIsRead(n: nat, rest: string)
    ensures Digits(Decimal(n) + rest, 0) == Digits(rest, n)
    decreases n
  {
    DigitAt(n % 10);
    var last := ["0123456789"[n % 10]];
    assert (last + rest)[1..] == rest;
    if n >= 10 {
      DecimalIsRead(n / 10, last + rest);
      assert Decimal(n) + rest == Decimal(n / 10) + (last + rest);
    }
  }

  lemma {:induction false} ZerosAreRead(k: nat, s: string)
    ensures Digits(Repeated('0', k) + s, 0) == Digits(s, 0)
  {
    if k == 0 {
      assert Repeated('0', k) + s == s;
    } else {
      ZerosAreRead(k - 1, s);
      assert (Repeated('0', k) + s)[1..] == Repeated('0', k - 1) + s;
    }
  }

  lemma {:induction false} SpacesAreSkipped(k: nat, s: string)
    requires s == "" || s[0] != ' '
    ensures SkipSpaces(Repeated(' ', k) + s) == s
  {
    if k == 0 {
      assert Repeated(' ', k) + s == s;
    } else {
      SpacesAreSkipped(k - 1, s);
      assert (Repeated(' ', k) + s)[1..] == Repeated(' ', k - 1) + s;
    }
  }

  // ----- The header line -----------------------------------------------------

  /** The first characters of `s` are those of `lower` or of `upper`, each by itself. */
  ghost predicate InEitherCase(s: string, lower: string, upper: string)
    requires |lower| == |upper|
  {
    |lower| <= |s| && forall i :: 0 <= i < |lower| ==> s[i] == lower[i] || s[i] == upper[i]
  }

  ghost predicate IsLengthLine(s: string)
  {
    InEitherCase(s, "content-length:", "CONTENT-LENGTH:")
  }

  ghost predicate IsLengthName(name: string)
  {
    |name| == 14 && InEitherCase(name, "content-length", "CONTENT-LENGTH")
  }

  /** Both cases of one character. */
  ghost predicate CasesOf(p: char, lower: char, upper: char)
  {
    forall c :: Lower(c) == Lower(p) <==> c == lower || c == upper
  }

  lemma ComparedWithoutCase(s: string, p: string, lower: string, upper: string)
    requires |p| == |lower| == |upper| && forall i :: 0 <= i < |p| ==> CasesOf(p[i], lower[i], upper[i])
    ensures StartsWithNoCase(s, p) <==> InEitherCase(s, lower, upper)
  {
    if |p| <= |s| {
      forall i | 0 <= i < |p| ensures Lower(s[i]) == Lower(p[i]) <==> s[i] == lower[i] || s[i] == upper[i] {
        assert CasesOf(p[i], lower[i], upper[i]);
      }
    }
  }

  lemma NameInAnyCase(s: string)
    ensures StartsWithNoCase(s, "Content-Length") <==> InEitherCase(s, "content-length", "CONTENT-LENGTH")
  {
    ComparedWithoutCase(s, "Content-Length", "content-length", "CONTENT-LENGTH");
  }

  lemma LineInAnyCase(s: string)
    ensures StartsWithNoCase(s, CONTENT_LENGTH) <==> IsLengthLine(s)
  {
    ComparedWithoutCase(s, CONTENT_LENGTH, "content-length:", "CONTENT-LENGTH:");
  }

  /** A line with another name leaves the length alone. */
  lemma OtherLine(s: string, before: nat)
    requires !IsLengthLine(s)
    ensures LengthAt(s, before) == before
  {
    LineInAnyCase(s);
  }

  /** A line of that name, in any case of its letters, sets the length to the number after
      any spaces and leading zeros. */
  lemma LengthIsNumber(s: string, before: nat, spaces: nat, zeros: nat, n: nat, rest: string)
    requires IsLengthLine(s) && !StartsWithDigit(rest)
    requires s[15..] == Repeated(' ', spaces) + (Repeated('0', zeros) + (Decimal(n) + rest))
    ensures LengthAt(s, before) == n
  {
    LineInAnyCase(s);
    var digits := Repeated('0', zeros) + (Decimal(n) + rest);
    DecimalStart(n);
    assert digits[0] == if zeros > 0 then '0' else Decimal(n)[0];
    SpacesAreSkipped(spaces, digits);
    ZerosAreRead(zeros, Decimal(n) + rest);
    DecimalIsRead(n, rest);
  }

  lemma {:induction false} DecimalStart(n: nat)
    ensures '0' <= Decimal(n)[0] <= '9'
    decreases n
  {
    if n < 10 { DigitAt(n); } else { DecimalStart(n / 10); }
  }

  /** Where no number follows the name and the spaces, the length is zero. */
  lemma LengthWithoutNumber(s: string, before: nat, spaces: nat, rest: string)
    requires IsLengthLine(s) && !StartsWithDigit(rest) && (rest == "" || rest[0] != ' ')
    requires s[15..] == Repeated(' ', spaces) + rest
    ensures LengthAt(s, before) == 0
  {
    LineInAnyCase(s);
    SpacesAreSkipped(spaces, rest);
  }

  // ----- Requests that declare their bodies ------------------------------------

  /** The header at `i` is the last one of that name. */
  ghost predicate LastLength(hs: seq<Header>, i: nat)
  {
    i < |hs| && IsLengthName(hs[i].name) && forall j :: i < j < |hs| ==> !IsLengthName(hs[j].name)
  }

  /** The last header of that name gives the length of the body in decimal, or there is
      none and no body. */
  ghost predicate DeclaresBody(r: Request)
  {
    (exists i: nat :: LastLength(r.headers, i) && r.headers[i].value == Decimal(|r.body|))
    || (r.body == "" && forall h :: h in r.headers ==> !IsLengthName(h.name))
  }

  /** A request as a client may send it: its parts contain nothing that ends them, its head
      fits the scanner's window, and it declares its body. */
  ghost predicate Sent(r: Request)
  {
    && WellFormed(r) && '\n' !in r.verb && '\n' !in r.path && '\n' !in r.search
    && |Serialize(r)| - |r.body| <= 4095
    && DeclaresBody(r)
  }

  lemma DeclaredByOne(h: Header, n: nat)
    ensures !IsLengthName(h.name) ==> DeclaredBy(h, n) == n
    ensures forall m: nat :: IsLengthName(h.name) && h.value == Decimal(m) ==> DeclaredBy(h, n) == m
  {
    NameInAnyCase(h.name);
    forall m: nat | h.value == Decimal(m) ensures Digits(h.value, 0) == m {
      DecimalIsRead(m, "");
      assert Decimal(m) + "" == Decimal(m);
    }
  }

  lemma {:induction false} NoneDeclared(hs: seq<Header>, n: nat)
    requires forall h :: h in hs ==> !IsLengthName(h.name)
    ensures DeclaredLength(hs, n) == n
  {
    if hs != [] {
      DeclaredByOne(hs[0], n);
      NoneDeclared(hs[1..], n);
    }
  }

  lemma {:induction false} LastIsDeclared(hs: seq<Header>, i: nat, n: nat, m: nat)
    requires LastLength(hs, i) && hs[i].value == Decimal(m)
    ensures DeclaredLength(hs, n) == m
  {
    hide DeclaredBy, IsLengthName;
    DeclaredByOne(hs[0], n);
    if i == 0 {
      forall h | h in hs[1..] ensures !IsLengthName(h.name) {
        var j :| 0 <= j < |hs| - 1 && hs[1..][j] == h;
        assert hs[j + 1] == h;
      }
      NoneDeclared(hs[1..], m);
    } else {
      forall j | i - 1 < j < |hs| - 1 ensures !IsLengthName(hs[1..][j].name) {
        assert hs[1..][j] == hs[j + 1];
      }
      LastIsDeclared(hs[1..], i - 1, DeclaredBy(hs[0], n), m);
    }
  }

  lemma SentIsFramed(r: Request)
    requires Sent(r)
    ensures Framed(r)
  {
    hide Serialize, HeadText, WellFormed, IsLengthName;
    SerializedParts(r);
    if i: nat :| LastLength(r.headers, i) && r.headers[i].value == Decimal(|r.body|) {
      LastIsDeclared(r.headers, i, 0, |r.body|);
    } else {
      NoneDeclared(r.headers, 0);
    }
  }

  /** Any number of requests sent on one connection, each with the length of its body in
      decimal, are cut exactly where they were joined, and each is parsed back to itself,
      headers reversed. */
  lemma SentRoundTrip(rs: seq<Request>)
    requires forall i :: 0 <= i < |rs| ==> Sent(rs[i])
    ensures Cut(Join(Texts(rs))) == (Texts(rs), "")
    ensures forall i :: 0 <= i < |rs| ==>
      Parse(Texts(rs)[i]) == Some(rs[i].(headers := Reverse(rs[i].headers)))
  {
    hide Sent, Framed, Cut, Parse, Serialize, Reverse;
    forall i | 0 <= i < |rs| ensures Framed(rs[i]) {
      SentIsFramed(rs[i]);
    }
    PipelineRoundTrip(rs);
  }
}
