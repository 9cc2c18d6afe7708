/** The queue of network buffers: a chain of chunks, consumed from the head, that
    stands for one sequence of bytes. */
module HttpQueue {
  import opened Wrappers

  const HTTP_BUF_SIZE: nat := 4096

  function Min(a: nat, b: nat): (m: nat)
  {
    if a <= b then a else b
  }

  /** The first `n` bytes, or all of them. */
  function Take(s: string, n: nat): (r: string)
  {
    s[..Min(n, |s|)]
  }

  function Drop(s: string, n: nat): (r: string)
    ensures Take(s, n) + r == s
  {
    s[Min(n, |s|)..]
  }

  lemma TakeMeaning(s: string, n: nat)
    ensures Take(s, n) <= s && |Take(s, n)| == (if n <= |s| then n else |s|)
  {
  }

  /** A buffer holds bytes that never change; reading moves `offset` up and `len` down. */
  class HttpBuf {
    const buf: string
    var offset: nat
    var len: nat

    ghost predicate Valid()
      reads this
    {
      offset + len <= |buf|
    }

    ghost function Chunk(): (r: string)
      reads this
    {
      if Valid() then buf[offset..offset + len] else ""
    }

    constructor (bytes: string)
      ensures Valid() && Chunk() == bytes && len == |bytes|
    {
      buf := bytes;
      offset, len := 0, |bytes|;
    }

    method Copy(n: nat) returns (r: string)
      requires Valid() && n <= len
      ensures r == Chunk()[..n]
    {
      r := buf[offset..offset + n];
    }

    method Skip(n: nat)
      requires Valid() && n <= len
      modifies this
      ensures Valid() && Chunk() == old(Chunk())[n..]
    {
      offset, len := offset + n, len - n;
    }
  }

  ghost predicate AllValid(bs: seq<HttpBuf>)
    reads bs
  {
    NoTwice(bs) && forall i :: 0 <= i < |bs| ==> bs[i].Valid()
  }

  lemma NoTwiceJoined(a: seq<HttpBuf>, b: seq<HttpBuf>)
    requires NoTwice(a) && NoTwice(b) && forall x :: x in b ==> x !in a
    ensures NoTwice(a + b)
  {
    forall i, j | 0 <= i < j < |a + b| ensures (a + b)[i] != (a + b)[j] {
      if j >= |a| { assert (a + b)[j] in b; }
    }
  }

  /** The bytes of a chain of buffers. */
  ghost function Bytes(bs: seq<HttpBuf>): (r: string)
    reads bs
  {
    if bs == [] then "" else bs[0].Chunk() + Bytes(bs[1..])
  }

  lemma {:induction false} BytesAppend(xs: seq<HttpBuf>, ys: seq<HttpBuf>)
    ensures Bytes(xs + ys) == Bytes(xs) + Bytes(ys)
  {
    if xs == [] {
      assert xs + ys == ys;
    } else {
      assert (xs + ys)[1..] == xs[1..] + ys;
      BytesAppend(xs[1..], ys);
    }
  }

  lemma NoTwiceSnoc(a: seq<HttpBuf>, b: HttpBuf)
    requires NoTwice(a) && b !in a
    ensures NoTwice(a + [b])
  {
  }

  lemma BytesFrom(bs: seq<HttpBuf>, i: nat)
    requires i < |bs|
    ensures Bytes(bs[i..]) == bs[i].Chunk() + Bytes(bs[i + 1..])
  {
    assert bs[i..][0] == bs[i] && bs[i..][1..] == bs[i + 1..];
  }

  lemma BytesNone()
    ensures Bytes([]) == ""
  {
  }

  lemma BytesOne(b: HttpBuf)
    ensures Bytes([b]) == b.Chunk()
  {
    assert Bytes([b]) == b.Chunk() + Bytes([]);
  }

  /** `http_buf_bybuf`: cuts bytes into buffers of at most HTTP_BUF_SIZE. */
  method ByBuf(bytes: string) returns (bs: seq<HttpBuf>)
    ensures ChainOf(bs, bytes) && forall i :: 0 <= i < |bs| ==> fresh(bs[i])
    ensures Bytes(bs) == bytes && forall i :: 0 <= i < |bs| ==> 0 < bs[i].len <= 4096
  {
    hide ChainOf;
    bs := [];
    var at := 0;
    EmptyChain();
    assert bytes[..at] == "";
    while at < |bytes|
      invariant 0 <= at <= |bytes|
      invariant ChainOf(bs, bytes[..at])
      invariant forall i :: 0 <= i < |bs| ==> fresh(bs[i])
    {
      var tocopy := Min(|bytes| - at, HTTP_BUF_SIZE);
      bs := LinkBuf(bs, bytes[..at], bytes[at..at + tocopy]);
      SlicesJoin(bytes, at, at + tocopy);
      at := at + tocopy;
    }
    assert bytes[..at] == bytes;
    ChainMeaning(bs, bytes);
  }

  /** A chain of buffers, none empty or too long, with the given bytes. */
  ghost predicate ChainOf(bs: seq<HttpBuf>, text: string)
    reads bs
  {
    && AllValid(bs) && Bytes(bs) == text
    && (forall i :: 0 <= i < |bs| ==> 0 < bs[i].len <= HTTP_BUF_SIZE)
  }

  lemma ChainMeaning(bs: seq<HttpBuf>, text: string)
    requires ChainOf(bs, text)
    ensures Bytes(bs) == text && forall i :: 0 <= i < |bs| ==> 0 < bs[i].len <= 4096
  {
  }

  lemma EmptyChain()
    ensures ChainOf([], "")
  {
  }

  lemma SlicesJoin(s: string, i: nat, j: nat)
    requires i <= j <= |s|
    ensures s[..i] + s[i..j] == s[..j]
  {
  }

  /** A further buffer at the end of a chain. */
  method LinkBuf(bs: seq<HttpBuf>, ghost before: string, text: string) returns (r: seq<HttpBuf>)
    requires ChainOf(bs, before) && 0 < |text| <= HTTP_BUF_SIZE
    ensures ChainOf(r, before + text)
    ensures |r| == |bs| + 1 && (forall i :: 0 <= i < |bs| ==> r[i] == bs[i]) && fresh(r[|bs|])
  {
    hide Bytes, NoTwice;
    var b := new HttpBuf(text);
    BytesAppend(bs, [b]);
    BytesOne(b);
    NoTwiceSnoc(bs, b);
    r := bs + [b];
  }

  class Queue {
    var bufs: seq<HttpBuf>
    /** All buffers that have been in the queue. */
    ghost var Repr: set<HttpBuf>

    ghost predicate Valid()
      reads this, Repr
    {
      && (forall i :: 0 <= i < |bufs| ==> bufs[i] in Repr)
      && AllValid(bufs)
    }

    ghost function Contents(): (r: string)
      requires Valid()
      reads this, Repr
    {
      Bytes(bufs)
    }

    constructor ()
      ensures Valid() && Contents() == "" && Repr == {}
    {
      bufs := [];
      Repr := {};
    }

    /** `http_buf_enqueue`. */
    method Enqueue(bs: seq<HttpBuf>)
      requires Valid() && AllValid(bs) && forall b :: b in bs ==> b !in Repr
      modifies this
      ensures Valid() && Contents() == old(Contents()) + Bytes(bs)
      ensures Repr == old(Repr) + (set b | b in bs)
    {
      hide Bytes, NoTwice;
      BytesAppend(bufs, bs);
      assert forall x :: x in bs ==> x !in bufs;
      NoTwiceJoined(bufs, bs);
      bufs := bufs + bs;
      Repr := Repr + (set b | b in bs);
    }

    /** `http_buf_peek`: the first bytes, leaving the queue alone. */
    method Peek(len: nat) returns (r: string)
      requires Valid()
      ensures r == Take(Contents(), len)
      ensures r <= Contents() && |r| == if len <= |Contents()| then len else |Contents()|
    {
      hide Bytes, Take;
      r := "";
      var i := 0;
      assert bufs[0..] == bufs;
      BytesNone();
      while i < |bufs| && |r| < len
        invariant 0 <= i <= |bufs| && |r| <= len
        invariant Take(Contents(), len) == r + Take(Bytes(bufs[i..]), len - |r|)
      {
        BytesFrom(bufs, i);
        r := PeekHead(bufs[i], Bytes(bufs[i + 1..]), r, len);
        i := i + 1;
      }
      TakeNothing(Bytes(bufs[i..]), len - |r|) by {
        assert i == |bufs| ==> bufs[i..] == [];
      }
      TakeMeaning(Contents(), len);
    }

    method PeekHead(b: HttpBuf, ghost rest: string, r: string, len: nat) returns (r': string)
      requires b.Valid() && |r| < len
      ensures |r'| <= len
      ensures r' + Take(rest, len - |r'|) == r + Take(b.Chunk() + rest, len - |r|)
    {
      var toread := Min(len - |r|, b.len);
      TakeJoined(b.Chunk(), rest, len - |r|);
      var piece := b.Copy(toread);
      r' := r + piece;
      assert r + (piece + Take(rest, len - |r'|)) == r' + Take(rest, len - |r'|);
    }

    /** `http_buf_size`. */
    method Size() returns (n: nat)
      requires Valid()
      ensures n == |Contents()|
    {
      n := 0;
      var i := 0;
      assert bufs[0..] == bufs;
      while i < |bufs|
        invariant 0 <= i <= |bufs|
        invariant |Contents()| == n + |Bytes(bufs[i..])|
      {
        assert bufs[i..][0] == bufs[i] && bufs[i..][1..] == bufs[i + 1..];
        n := n + bufs[i].len;
        i := i + 1;
      }
    }

    /** One round of `http_buf_read`: `n` bytes off the first buffer, which goes when it
        is used up. */
    method ReadHead(n: nat) returns (piece: string)
      requires Valid() && bufs != [] && n <= bufs[0].len
      modifies this`bufs, bufs[0]
      ensures Valid() && |piece| == n && piece + Contents() == old(Contents())
      ensures bufs == if n < old(bufs[0].len) then old(bufs) else old(bufs)[1..]
    {
      var b := bufs[0];
      assert b !in bufs[1..];
      ghost var chunk, rest := b.Chunk(), Bytes(bufs[1..]);
      CutPiece(chunk, rest, n);
      piece := b.Copy(n);
      if n < b.len {
        b.Skip(n);
        assert Bytes(bufs[1..]) == rest;
        assert Contents() == chunk[n..] + rest;
      } else {
        assert |chunk| == n;
        bufs := bufs[1..];
      }
    }

    /** `http_buf_read`: takes up to `len` bytes off the head. */
    method Read(len: nat) returns (r: string)
      requires Valid()
      modifies this`bufs, Repr
      ensures Valid() && Contents() == Drop(old(Contents()), len)
      ensures r == Take(old(Contents()), len)
      ensures r + Contents() == old(Contents()) && |r| == if len <= |r + Contents()| then len else |r + Contents()|
    {
      hide Bytes, Take, Drop;
      ghost var whole := Contents();
      r := "";
      while bufs != [] && |r| < len
        invariant Valid() && |r| <= len
        invariant r + Contents() == whole
        decreases |bufs|
      {
        var toread := Min(len - |r|, bufs[0].len);
        var last := toread < bufs[0].len;
        ghost var before := Contents();
        var piece := ReadHead(toread);
        assert r + before == (r + piece) + Contents();
        r := r + piece;
        if last {
          break;
        }
      }
      BytesNone();
      TookFrom(whole, r, Contents(), len);
    }
  }

  lemma TakeNothing(s: string, n: nat)
    requires s == "" || n == 0
    ensures Take(s, n) == ""
  {
  }

  lemma TakeJoined(chunk: string, rest: string, n: nat)
    ensures var m := Min(n, |chunk|);
      Take(chunk + rest, n) == chunk[..m] + Take(rest, n - m)
  {
  }

  lemma TookFrom(whole: string, r: string, rest: string, len: nat)
    requires r + rest == whole && |r| <= len && (|r| == len || rest == "")
    ensures r == Take(whole, len) && rest == Drop(whole, len)
  {
    assert whole[..|r|] == r && whole[|r|..] == rest;
  }

  lemma CutPiece(chunk: string, rest: string, n: nat)
    requires n <= |chunk|
    ensures chunk[..n] + (chunk[n..] + rest) == chunk + rest
    ensures n == |chunk| ==> chunk[..n] + rest == chunk + rest
  {
  }
}
