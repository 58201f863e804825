/**
 Received messages and acknowledgements of lib/tst_rtnetlink.c: what a buffer of received bytes holds, which
 responses that makes, and when a sequence of requests is acknowledged by them.
 */
module RtnetlinkAcks {
  import opened Wrappers
  import opened NetlinkWire

  // ----- Responses -----

  /** One received message: its sequence number, and its error code if its type is NLMSG_ERROR. */
  datatype Response = Response(seqno: nat, err: Option<int>)

  /** The sequence numbers of the messages that ask for an acknowledgement. */
  function AckSeqs(ms: seq<Msg>): seq<nat>
    requires GoodMsgs(ms)
  {
    if ms == [] then []
    else
      var h := HeaderAt(ms[0].hdr, 0);
      (if HasFlag(h.flags, NLM_F_ACK) then [h.seqno] else []) + AckSeqs(ms[1..])
  }

  /** The first response from `at` on with the sequence number, or the end. */
  function Find(res: seq<Response>, at: nat, seqno: nat): (r: nat)
    requires at <= |res|
    ensures at <= r <= |res|
    ensures r < |res| ==> res[r].seqno == seqno
    ensures forall i | at <= i < r :: res[i].seqno != seqno
    decreases |res| - at
  {
    if at == |res| || res[at].seqno == seqno then at else Find(res, at + 1, seqno)
  }

  predicate CheckFrom(seqs: seq<nat>, res: seq<Response>, at: nat)
    requires at <= |res|
    decreases |seqs|
  {
    seqs == [] ||
    var r := Find(res, at, seqs[0]);
    r < |res| && res[r].err == Some(0) && CheckFrom(seqs[1..], res, r)
  }

  /** A zero-error response for each number, at places that never go back, each the first from the one before. */
  ghost predicate Places(seqs: seq<nat>, res: seq<Response>, at: nat, places: seq<nat>) {
    |places| == |seqs| && forall k | 0 <= k < |seqs| :: First(seqs[k], res, Before(at, places, k), places[k])
  }

  function Before(at: nat, places: seq<nat>, k: nat): nat
    requires k <= |places|
  {
    if k == 0 then at else places[k - 1]
  }

  predicate First(seqno: nat, res: seq<Response>, from: nat, at: nat) {
    && from <= at < |res| && res[at] == Response(seqno, Some(0))
    && forall i | from <= i < at :: res[i].seqno != seqno
  }

  ghost predicate Acked(seqs: seq<nat>, res: seq<Response>) {
    exists places :: Places(seqs, res, 0, places)
  }

  lemma FindIsFirst(res: seq<Response>, at: nat, seqno: nat)
    requires at <= |res|
    ensures
      var r := Find(res, at, seqno);
      r < |res| && res[r].err == Some(0) ==> First(seqno, res, at, r)
  {
  }

  lemma {:induction false} PlacesFromCheck(seqs: seq<nat>, res: seq<Response>, at: nat) returns (places: seq<nat>)
    requires at <= |res| && CheckFrom(seqs, res, at)
    ensures Places(seqs, res, at, places)
    decreases |seqs|
  {
    if seqs == [] {
      places := [];
    } else {
      var r := Find(res, at, seqs[0]);
      var rest := PlacesFromCheck(seqs[1..], res, r);
      places := [r] + rest;
      FindIsFirst(res, at, seqs[0]);
      hide First, Find, CheckFrom;
      forall k | 0 <= k < |seqs| ensures First(seqs[k], res, Before(at, places, k), places[k]) {
        if k > 0 {
          assert First(seqs[1..][k - 1], res, Before(r, rest, k - 1), rest[k - 1]);
          assert Before(r, rest, k - 1) == Before(at, places, k) && rest[k - 1] == places[k];
        }
      }
    }
  }

  lemma {:induction false} CheckFromPlaces(seqs: seq<nat>, res: seq<Response>, at: nat, places: seq<nat>)
    requires at <= |res| && Places(seqs, res, at, places)
    ensures CheckFrom(seqs, res, at)
    decreases |seqs|
  {
    if seqs != [] {
      var r := Find(res, at, seqs[0]);
      assert First(seqs[0], res, Before(at, places, 0), places[0]);
      assert res[places[0]].seqno == seqs[0];
      assert r == places[0];
      forall k | 0 <= k < |seqs[1..]| ensures First(seqs[1..][k], res, Before(r, places[1..], k), places[1..][k]) {
        assert First(seqs[k + 1], res, Before(at, places, k + 1), places[k + 1]);
      }
      CheckFromPlaces(seqs[1..], res, r, places[1..]);
    }
  }

  lemma CheckIsAcked(seqs: seq<nat>, res: seq<Response>)
    ensures CheckFrom(seqs, res, 0) <==> Acked(seqs, res)
  {
    if CheckFrom(seqs, res, 0) {
      var places := PlacesFromCheck(seqs, res, 0);
    }
    if Acked(seqs, res) {
      var places :| Places(seqs, res, 0, places);
      CheckFromPlaces(seqs, res, 0, places);
    }
  }

  /** Sound: every message that asked for an acknowledgement got a zero-error one with its number. */
  lemma AcksAreSound(seqs: seq<nat>, res: seq<Response>)
    requires Acked(seqs, res)
    ensures forall k | 0 <= k < |seqs| :: Response(seqs[k], Some(0)) in res
  {
    var places :| Places(seqs, res, 0, places);
    forall k | 0 <= k < |seqs| ensures Response(seqs[k], Some(0)) in res {
      assert First(seqs[k], res, Before(0, places, k), places[k]);
      assert res[places[k]] in res;
    }
  }

  /** Responses for the numbers stand in the order asked, at `p`. */
  ghost predicate InOrder(seqs: seq<nat>, res: seq<Response>, at: nat, p: seq<nat>) {
    && |p| == |seqs|
    && (forall k | 0 <= k < |seqs| :: at <= p[k] < |res| && res[p[k]].seqno == seqs[k])
    && forall j, k | 0 <= j < k < |seqs| :: p[j] <= p[k]
  }

  /** Complete for ordered responses, whatever else was received in between. */
  lemma {:induction false} OrderedAcksSuffice(seqs: seq<nat>, res: seq<Response>, at: nat, p: seq<nat>)
    requires at <= |res| && InOrder(seqs, res, at, p)
    requires forall i | 0 <= i < |res| :: res[i].seqno in seqs ==> res[i].err == Some(0)
    ensures CheckFrom(seqs, res, at)
    decreases |seqs|
  {
    if seqs != [] {
      var r := Find(res, at, seqs[0]);
      assert r <= p[0];
      assert forall k | 0 <= k < |seqs[1..]| :: p[1..][k] == p[k + 1] && seqs[1..][k] == seqs[k + 1];
      OrderedAcksSuffice(seqs[1..], res, r, p[1..]);
    }
  }

  lemma AcksAreComplete(seqs: seq<nat>, res: seq<Response>, p: seq<nat>)
    requires InOrder(seqs, res, 0, p)
    requires forall i | 0 <= i < |res| :: res[i].seqno in seqs ==> res[i].err == Some(0)
    ensures Acked(seqs, res)
  {
    OrderedAcksSuffice(seqs, res, 0, p);
    CheckIsAcked(seqs, res);
  }

  /** The message a walk is at, and where it goes next. */
  lemma VisitNext(s: seq<byte>, n: nat, at: nat, ms: seq<Msg>)
    requires n <= |s| && MsgOk(s, n, at) && GoodMsgs(ms) && Visits(s, Walk(s, n, at), ms)
    ensures ms != [] && HeaderAt(s, at) == HeaderAt(ms[0].hdr, 0)
    ensures Visits(s, Walk(s, n, at + Align(HeaderAt(s, at).len)), ms[1..]) && GoodMsgs(ms[1..])
  {
    WalkMoves(s, n, at);
    GoodTail(ms);
    hide Walk, GoodMsg, MsgAt, Align;
    HeaderStands(s, at, ms[0]);
  }

  lemma WalkMoves(s: seq<byte>, n: nat, at: nat)
    requires n <= |s| && MsgOk(s, n, at)
    ensures
      var w := Walk(s, n, at);
      w != [] && w[0] == at && w[1..] == Walk(s, n, at + Align(HeaderAt(s, at).len))
  {
    hide Align, Get32, Get16;
  }

  lemma GoodTail(ms: seq<Msg>)
    requires GoodMsgs(ms)
    ensures ms != [] ==> GoodMsg(ms[0]) && GoodMsgs(ms[1..])
  {
    hide GoodMsg;
  }

  lemma AckSeqsStep(ms: seq<Msg>, res: seq<Response>, r: nat)
    requires ms != [] && GoodMsgs(ms) && r <= |res|
    ensures
      var h := HeaderAt(ms[0].hdr, 0);
      var r' := Find(res, r, h.seqno);
      CheckFrom(AckSeqs(ms), res, r) ==
      if HasFlag(h.flags, NLM_F_ACK)
      then r' < |res| && res[r'].err == Some(0) && CheckFrom(AckSeqs(ms[1..]), res, r')
      else CheckFrom(AckSeqs(ms[1..]), res, r)
  {
    var h := HeaderAt(ms[0].hdr, 0);
    if HasFlag(h.flags, NLM_F_ACK) {
      assert AckSeqs(ms)[1..] == AckSeqs(ms[1..]);
    } else {
      assert AckSeqs(ms) == AckSeqs(ms[1..]);
    }
  }

  // ----- Received bytes -----

  const NLMSG_ERROR := 2

  /** A tst_rtnl_message: where its header, payload and error message stand. */
  datatype Received = Received(header: nat, payload: nat, payloadSize: nat, err: Option<nat>)

  function ReceivedAt(s: seq<byte>, at: nat): Received
    requires MsgOk(s, |s|, at)
  {
    Received(
      at, at + NLMSG_HDR, Get32(s, at) - NLMSG_HDR,
      if Get16(s, at + 4) == NLMSG_ERROR then Some(at + NLMSG_HDR) else None)
  }

  /** The messages that a walk from `at` on finds. */
  function ReceivedFrom(s: seq<byte>, at: nat): (r: seq<Received>)
    ensures |r| == |Walk(s, |s|, at)|
    decreases |s| - at
  {
    if !MsgOk(s, |s|, at) then [] else [ReceivedAt(s, at)] + ReceivedFrom(s, at + Align(Get32(s, at)))
  }

  /** An array that ends with a cell whose header is NULL. */
  ghost predicate Ended(cells: seq<Option<Received>>, ms: seq<Received>) {
    && |cells| == |ms| + 1 && cells[|ms|] == None
    && forall i | 0 <= i < |ms| :: cells[i] == Some(ms[i])
  }

  /**
   The two loops of tst_rtnl_recv: count the messages in the received bytes, then record header, payload, size and
   error message of each. Without any bytes there is no array.
   */
  method Messages(s: seq<byte>) returns (ret: array?<Option<Received>>)
    ensures ret == null <==> s == []
    ensures ret != null ==> fresh(ret) && Ended(ret[..], ReceivedFrom(s, 0))
  {
    hide Get32, Get16;
    if s == [] {
      return null;
    }
    var at: nat, count: nat := 0, 0;
    ghost var ms := ReceivedFrom(s, 0);
    while MsgOk(s, |s|, at)
      invariant count + |ReceivedFrom(s, at)| == |ms|
      decreases |s| - at
    {
      at, count := at + Align(Get32(s, at)), count + 1;
    }
    ret := new Option<Received>[count + 1](_ => None);
    at := 0;
    assert ms[0..] == ms;
    for i := 0 to count
      invariant ms[i..] == ReceivedFrom(s, at) && ret[count] == None
      invariant forall k | 0 <= k < i :: ret[k] == Some(ms[k])
    {
      assert ms[i..][0] == ms[i] && ms[i..][1..] == ms[i + 1..];
      ret[i] := Some(ReceivedAt(s, at));
      at := at + Align(Get32(s, at));
    }
  }

  /** An error message holds its error code. */
  predicate Whole(s: seq<byte>, m: Received) {
    m.header + NLMSG_HDR <= |s| && (m.err.Some? ==> m.err.value + 4 <= |s|)
  }

  function Signed32(x: nat): int
    requires x < U32
  {
    if x < U32 / 2 then x else x - U32
  }

  function ResponseOf(s: seq<byte>, m: Received): Response
    requires Whole(s, m)
  {
    Response(Get32(s, m.header + 8), if m.err.None? then None else Some(Signed32(Get32(s, m.err.value))))
  }

  predicate AllWhole(s: seq<byte>, ms: seq<Received>) {
    forall i | 0 <= i < |ms| :: Whole(s, ms[i])
  }

  function ResponsesOf(s: seq<byte>, ms: seq<Received>): (r: seq<Response>)
    requires AllWhole(s, ms)
    ensures |r| == |ms|
  {
    seq(|ms|, i requires 0 <= i < |ms| => ResponseOf(s, ms[i]))
  }

  /** Moves on to the first response with the number; true if it is there and reports no error. */
  method FindAck(s: seq<byte>, res: array<Option<Received>>, ghost ms: seq<Received>, r: nat, seqno: nat)
    returns (ok: bool, r': nat)
    requires Ended(res[..], ms) && AllWhole(s, ms) && r <= |ms|
    ensures r' == Find(ResponsesOf(s, ms), r, seqno)
    ensures ok <==> r' < |ms| && ResponsesOf(s, ms)[r'].err == Some(0)
  {
    hide Get32;
    ghost var rs := ResponsesOf(s, ms);
    assert forall i | 0 <= i < res.Length :: res[i] == res[..][i];
    r' := r;
    while res[r'].Some? && Get32(s, res[r'].value.header + 8) != seqno
      invariant r <= r' <= |ms| && Find(rs, r, seqno) == Find(rs, r', seqno)
      decreases |ms| - r'
    {
      r' := r' + 1;
    }
    if res[r'].None? || res[r'].value.err.None? {
      return false, r';
    }
    ok := Signed32(Get32(s, res[r'].value.err.value)) == 0;
  }

  lemma NoMoreRequests(s: seq<byte>, n: nat, at: nat, rest: seq<Msg>, rs: seq<Response>, r: nat)
    requires n <= |s| && !MsgOk(s, n, at) && Visits(s, Walk(s, n, at), rest) && GoodMsgs(rest) && r <= |rs|
    ensures CheckFrom(AckSeqs(rest), rs, r)
  {
  }

  /** The loop of tst_rtnl_check_acks, over the first `datalen` bytes of a buffer that holds `msgs`. */
  method CheckRequests(
      buffer: seq<byte>, datalen: nat, ghost msgs: seq<Msg>, s: seq<byte>, res: array<Option<Received>>,
      ghost ms: seq<Received>)
      returns (ok: bool)
    requires datalen <= |buffer| && GoodMsgs(msgs) && Visits(buffer, Walk(buffer, datalen, 0), msgs)
    requires Ended(res[..], ms) && AllWhole(s, ms)
    ensures ok <==> Acked(AckSeqs(msgs), ResponsesOf(s, ms))
  {
    hide Get16, Get32, HasFlag, ResponsesOf, Ended, AllWhole, AckSeqs, Acked, Find, Walk, Visits, GoodMsgs, CheckFrom;
    ghost var rs := ResponsesOf(s, ms);
    CheckIsAcked(AckSeqs(msgs), rs);
    var at, r := 0, 0;
    ghost var rest := msgs;
    while MsgOk(buffer, datalen, at)
      invariant 0 <= r <= |rs| && GoodMsgs(rest) && Visits(buffer, Walk(buffer, datalen, at), rest)
      invariant CheckFrom(AckSeqs(msgs), rs, 0) == CheckFrom(AckSeqs(rest), rs, r)
      decreases datalen - at
    {
      VisitNext(buffer, datalen, at, rest);
      AckSeqsStep(rest, rs, r);
      var h := HeaderAt(buffer, at);
      if HasFlag(h.flags, NLM_F_ACK) {
        ok, r := FindAck(s, res, ms, r, h.seqno);
        if !ok {
          return;
        }
      }
      at := at + Align(h.len);
      rest := rest[1..];
    }
    NoMoreRequests(buffer, datalen, at, rest, rs, r);
    ok := true;
  }

  // ----- Acknowledgements on the wire -----

  /** The message acknowledges a request: its type is NLMSG_ERROR, and its payload starts with the code 0. */
  ghost predicate IsAck(m: Msg, seqno: nat) {
    && GoodMsg(m) && |m.body| >= 4 && (forall i | 0 <= i < 4 :: m.body[i] == Byte(0))
    && HeaderAt(m.hdr, 0).ty == NLMSG_ERROR && HeaderAt(m.hdr, 0).seqno == seqno
  }

  lemma AckIsResponse(s: seq<byte>, at: nat, m: Msg, seqno: nat)
    requires MsgAt(s, at, m) && IsAck(m, seqno) && MsgOk(s, |s|, at)
    ensures
      var r := ReceivedAt(s, at);
      Whole(s, r) && ResponseOf(s, r) == Response(seqno, Some(0))
  {
    HeaderStands(s, at, m);
    AgreeSplit(Cells(m.hdr), m.body, s, at, false);
    var p := at + NLMSG_HDR;
    assert Matches(m.body[0], s[p + 0], false) && Matches(m.body[1], s[p + 1], false);
    assert Matches(m.body[2], s[p + 2], false) && Matches(m.body[3], s[p + 3], false);
    ZeroIsZero(s, p);
  }

  lemma ZeroIsZero(s: seq<byte>, at: nat)
    requires at + 4 <= |s| && s[at] == 0 && s[at + 1] == 0 && s[at + 2] == 0 && s[at + 3] == 0
    ensures Get32(s, at) == 0
  {
  }

  ghost predicate AreAcks(ms: seq<Msg>, seqs: seq<nat>)
    decreases |ms|
  {
    |ms| == |seqs| && (ms == [] || (IsAck(ms[0], seqs[0]) && AreAcks(ms[1..], seqs[1..])))
  }

  lemma {:induction false} AcksAreResponses(s: seq<byte>, at: nat, ms: seq<Msg>, seqs: seq<nat>, k: nat)
    requires Visits(s, Walk(s, |s|, at), ms) && AreAcks(ms, seqs) && k < |ms|
    ensures |ReceivedFrom(s, at)| == |ms|
    ensures Whole(s, ReceivedFrom(s, at)[k]) && ResponseOf(s, ReceivedFrom(s, at)[k]) == Response(seqs[k], Some(0))
    decreases |ms|
  {
    VisitsAll(s, Walk(s, |s|, at), ms, 0);
    AckIsResponse(s, at, ms[0], seqs[0]);
    if k > 0 {
      assert Walk(s, |s|, at)[1..] == Walk(s, |s|, at + Align(Get32(s, at)));
      AcksAreResponses(s, at + Align(Get32(s, at)), ms[1..], seqs[1..], k - 1);
    }
  }

  /**
   From the wire: received bytes that hold one acknowledgement for each request, in the order of the requests, are
   whole and acknowledge them all.
   */
  lemma WireAcksAreComplete(s: seq<byte>, ms: seq<Msg>, seqs: seq<nat>, clean: bool)
    requires GoodMsgs(ms) && Agree(Stream(ms), s, 0, clean) && |Stream(ms)| == |s| && AreAcks(ms, seqs)
    ensures AllWhole(s, ReceivedFrom(s, 0)) && Acked(seqs, ResponsesOf(s, ReceivedFrom(s, 0)))
  {
    WalkVisitsStream(s, ms, clean);
    VisitsAll(s, Walk(s, |s|, 0), ms, 0);
    hide Stream, Agree, AreAcks, ReceivedFrom, Walk, ResponseOf, Whole;
    var rs := ReceivedFrom(s, 0);
    forall k | 0 <= k < |rs| ensures Whole(s, rs[k]) && ResponseOf(s, rs[k]) == Response(seqs[k], Some(0)) {
      AcksAreResponses(s, 0, ms, seqs, k);
    }
    AcksLength(ms, seqs);
    AcksAreComplete(seqs, ResponsesOf(s, rs), seq(|seqs|, i => i));
  }

  lemma AcksLength(ms: seq<Msg>, seqs: seq<nat>)
    requires AreAcks(ms, seqs)
    ensures |ms| == |seqs|
  {
  }
}
