/** A client connection: bytes are queued as they come in, and complete requests are
    cut off the queue while the channel is not busy with one. */
module HttpChannel {
  import opened HttpQueue
  import opened HttpFraming

  /** What becomes of a request that was cut: it cannot be parsed, it is dealt with at
      once, or the channel is busy with it until the response is sent. */
  datatype Verdict = Failed | Done | Waiting

  /** What was cut, followed by what can still be cut off the queue, is what can be cut
      off the bytes received. */
  ghost predicate Agree(received: string, requests: seq<string>, queue: string)
  {
    Cut(received) == (requests + Cut(queue).0, Cut(queue).1)
  }

  /** Requests are handed on one at a time: nothing is cut while the channel is busy, and
      what follows a request that failed or has to be waited for stays in the queue. */
  ghost predicate InTurn(before: seq<string>, now: seq<string>, verdict: string -> Verdict,
                         wasBusy: bool, busy: bool, failed: bool)
  {
    && before <= now
    && (wasBusy ==> now == before)
    && (forall i :: |before| <= i < |now| - 1 ==> verdict(now[i]) == Done)
    && (if |now| == |before| then busy == wasBusy && !failed
        else (failed <==> verdict(now[|now| - 1]) == Failed) && (busy <==> verdict(now[|now| - 1]) == Waiting))
  }

  lemma AgreeMeans(received: string, requests: seq<string>, queue: string)
    requires Agree(received, requests, queue)
    ensures requests <= Cut(received).0
  {
  }

  lemma AgreeStart()
    ensures Agree("", [], "")
  {
    assert [] + Cut("").0 == Cut("").0;
  }

  lemma AgreeCut(received: string, requests: seq<string>, queue: string, n: nat)
    requires Agree(received, requests, queue) && n == RequestCheck(queue) > 2
    ensures n <= |queue| && Agree(received, requests + [queue[..n]], queue[n..])
  {
    CheckIsStable(queue, "");
    assert requests + ([queue[..n]] + Cut(queue[n..]).0) == (requests + [queue[..n]]) + Cut(queue[n..]).0;
  }

  lemma AgreeDone(received: string, requests: seq<string>, queue: string)
    requires Agree(received, requests, queue) && RequestCheck(queue) <= 2
    ensures Cut(received) == (requests, queue)
  {
    assert requests + [] == requests;
  }

  lemma AgreeReceive(received: string, requests: seq<string>, queue: string, fragment: string)
    requires Agree(received, requests, queue)
    ensures Agree(received + fragment, requests, queue + fragment)
  {
    hide Cut;
    var (rs, rest) := Cut(queue);
    assert Cut(received + fragment) == (requests + rs + Cut(rest + fragment).0, Cut(rest + fragment).1) by {
      CutAppend(received, fragment);
    }
    assert Cut(queue + fragment) == (rs + Cut(rest + fragment).0, Cut(rest + fragment).1) by {
      CutAppend(queue, fragment);
    }
    assert (requests + rs) + Cut(rest + fragment).0 == requests + (rs + Cut(rest + fragment).0);
  }

  class Channel {
    const iqueue: Queue
    var busy: bool
    /** The requests cut so far, and all bytes received. */
    ghost var requests: seq<string>
    ghost var received: string

    ghost predicate Valid()
      reads this, iqueue, iqueue.Repr
    {
      iqueue.Valid() && Agree(received, requests, iqueue.Contents())
    }

    constructor ()
      ensures Valid() && fresh(iqueue) && iqueue.Repr == {} && received == "" && requests == [] && !busy
    {
      iqueue := new Queue();
      busy := false;
      requests, received := [], "";
      new;
      AgreeStart();
    }

    /** `request_check` on the queue. */
    method CheckRequest() returns (n: nat)
      requires iqueue.Valid()
      ensures n == RequestCheck(iqueue.Contents())
    {
      var tmp := iqueue.Peek(MAX_HTTP_HEADER - 1);
      var sz := iqueue.Size();
      n := PackageCheck(tmp, sz);
    }

    /** Takes a complete request off the queue. */
    method CutOne(n: nat) returns (request: string)
      requires Valid() && n == RequestCheck(iqueue.Contents()) > 2
      modifies this`requests, iqueue`bufs, iqueue.Repr
      ensures Valid() && requests == old(requests) + [request]
      ensures |iqueue.Contents()| < |old(iqueue.Contents())|
    {
      hide Cut, RequestCheck;
      AgreeCut(received, requests, iqueue.Contents(), n);
      request := iqueue.Read(n);
      requests := requests + [request];
    }

    /** The loop of `http_io` that cuts requests off the queue. */
    method CutRequests(verdict: string -> Verdict) returns (failed: bool)
      requires Valid()
      modifies this, iqueue, iqueue.Repr
      ensures Valid() && received == old(received)
      ensures InTurn(old(requests), requests, verdict, old(busy), busy, failed)
      ensures requests <= Cut(received).0
      ensures !busy && !failed ==> requests == Cut(received).0 && iqueue.Contents() == Cut(received).1
      ensures iqueue.Repr == old(iqueue.Repr)
    {
      hide Cut, RequestCheck, Agree, Bytes;
      failed := false;
      while true
        invariant Valid() && received == old(received) && !failed
        invariant InTurn(old(requests), requests, verdict, old(busy), busy, failed)
        invariant iqueue.Repr == old(iqueue.Repr)
        decreases |iqueue.Contents()|
      {
        AgreeMeans(received, requests, iqueue.Contents());
        if busy {
          return;
        }
        var n := CheckRequest();
        if n <= 2 {
          AgreeDone(received, requests, iqueue.Contents());
          return;
        }
        var request := CutOne(n);
        AgreeMeans(received, requests, iqueue.Contents());
        match verdict(request) {
          case Failed => return true;
          case Waiting => busy := true;
          case Done =>
        }
      }
    }

    /** New bytes from the network, at most one buffer less a byte. */
    method Input(fragment: string, verdict: string -> Verdict) returns (failed: bool)
      requires Valid() && 0 < |fragment| < HTTP_BUF_SIZE
      modifies this, iqueue, iqueue.Repr
      ensures Valid() && received == old(received) + fragment
      ensures InTurn(old(requests), requests, verdict, old(busy), busy, failed)
      ensures requests <= Cut(received).0
      ensures !busy && !failed ==> requests == Cut(received).0 && iqueue.Contents() == Cut(received).1
    {
      hide Cut, Agree, Bytes;
      AgreeReceive(received, requests, iqueue.Contents(), fragment);
      ghost var q := iqueue.Contents();
      var htbuf := new HttpBuf(fragment);
      BytesOne(htbuf);
      assert iqueue.Contents() == q;
      iqueue.Enqueue([htbuf]);
      assert iqueue.Contents() == q + fragment;
      received := received + fragment;
      failed := CutRequests(verdict);
    }

    /** The response has been sent. */
    method Respond()
      requires Valid()
      modifies this`busy
      ensures Valid() && !busy
    {
      busy := false;
    }
  }
}
