/**
 Whole runs of the rtnetlink builder: any sequence of calls on a new context, against a plan of the messages
 that such a sequence is meant to give.
 */
module RtnetlinkRun {
  import opened Wrappers
  import opened NetlinkWire
  import opened Rtnetlink
  import opened RtnetlinkContext

  type u16 = n: nat | n < U16

  datatype Call = Message(ty: u16, flags: u16, payload: seq<byte>)
                | Attribute(ty: u16, data: seq<byte>)
                | Attributes(list: seq<Attr>)

  // ----- What the calls mean -----

  datatype Planned = Planned(ty: u16, flags: u16, seqno: nat, body: seq<Cell>)

  /** The messages so far and the next sequence number. */
  datatype Plan = Plan(msgs: seq<Planned>, next: nat)

  /** The same messages with another last one. */
  function Replaced(msgs: seq<Planned>, p: Planned): seq<Planned>
    requires msgs != []
  {
    msgs[..|msgs| - 1] + [p]
  }

  /** All messages of a stream of several are multi-part. */
  function PlanMessage(plan: Plan, c: Call): Plan
    requires c.Message? && plan.next < U32
  {
    Plan(
      if plan.msgs == [] then [Planned(c.ty, c.flags, plan.next, Cells(c.payload))]
      else
        var p := plan.msgs[|plan.msgs| - 1];
        Replaced(plan.msgs, p.(flags := OrMulti(p.flags))) +
        [Planned(c.ty, OrMulti(c.flags), plan.next, Cells(c.payload))],
      NextSeq(plan.next))
  }

  /** Attributes go to the end of the last message; without one, or when one does not fit, the call fails. */
  function PlanList(plan: Plan, list: seq<Attr>): Option<Plan> {
    if list == [] then Some(plan)
    else if plan.msgs == [] || !Fits(list) then None
    else
      var p := plan.msgs[|plan.msgs| - 1];
      Some(plan.(msgs := Replaced(plan.msgs, p.(body := Append(p.body, list)))))
  }

  function PlanCall(plan: Plan, c: Call): Option<Plan>
    requires plan.next < U32
  {
    match c
    case Message(_, _, _) => Some(PlanMessage(plan, c))
    case Attribute(ty, data) => PlanList(plan, [Attr(ty, data, NoSub)])
    case Attributes(list) => PlanList(plan, list)
  }

  function PlanAll(calls: seq<Call>): (r: Option<Plan>)
    ensures r.Some? ==> r.value.next < U32
  {
    if calls == [] then Some(Plan([], 0))
    else
      var r := PlanAll(calls[..|calls| - 1]);
      if r.None? then None else PlanCall(r.value, calls[|calls| - 1])
  }

  // ----- What callers must keep to -----

  function CallSpace(c: Call): nat {
    match c
    case Message(_, _, payload) => Align(NLMSG_HDR + |payload|)
    case Attribute(_, data) => Align(RTA_HDR + |data|)
    case Attributes(list) => Space(list)
  }

  function Total(calls: seq<Call>): nat {
    if calls == [] then 0 else CallSpace(calls[0]) + Total(calls[1..])
  }

  /** Data lengths that the 16-bit length in add_attr does not wrap. */
  predicate GoodCall(c: Call) {
    match c
    case Message(_, _, _) => true
    case Attribute(_, data) => |data| <= USHRT_MAX - RTA_HDR
    case Attributes(list) => NoWrap(list)
  }

  /** The first message fits the buffer of a new context. */
  predicate FirstFits(calls: seq<Call>) {
    calls == [] || (if calls[0].Message? then CallSpace(calls[0]) <= 1024 else FirstFits(calls[1..]))
  }

  // ----- The buffer holds what was planned -----

  predicate Is(m: Msg, p: Planned, pid: nat) {
    && |m.hdr| == NLMSG_HDR && m.body == p.body
    && HeaderAt(m.hdr, 0) == Header(NLMSG_HDR + |p.body|, p.ty, p.flags, p.seqno, pid)
  }

  predicate Realises(msgs: seq<Msg>, plan: seq<Planned>, pid: nat) {
    |msgs| == |plan| && forall i | 0 <= i < |msgs| :: Is(msgs[i], plan[i], pid)
  }

  lemma NewMsgIs(h: Header, payload: seq<byte>)
    requires GoodHeader(h) && NLMSG_HDR + |payload| < U32
    ensures |NewMsg(h, payload).hdr| == NLMSG_HDR && NewMsg(h, payload).body == Cells(payload)
  {
  }

  lemma MultiIs(m: Msg, p: Planned, pid: nat)
    requires Is(m, p, pid) && GoodMsg(m)
    ensures Is(Multi(m), p.(flags := OrMulti(p.flags)), pid)
  {
    MultiIsGood(m);
    hide OrMulti, HeaderAt;
  }

  lemma MessageRealises(msgs: seq<Msg>, plan: Plan, c: Call, pid: nat, msgs': seq<Msg>)
    requires Realises(msgs, plan.msgs, pid) && GoodMsgs(msgs) && c.Message? && plan.next < U32 && pid < U32
    requires NLMSG_HDR + |c.payload| < U32
    requires
      msgs' ==
      (if msgs == [] then [] else WithLast(msgs, Multi(Last(msgs)))) +
      [NewMsg(Header(0, c.ty, if msgs == [] then c.flags else OrMulti(c.flags), plan.next, pid), c.payload)]
    ensures Realises(msgs', PlanMessage(plan, c).msgs, pid)
  {
    hide OrMulti, NewMsg, Multi, HeaderAt, GoodMsg;
    var h := Header(0, c.ty, if msgs == [] then c.flags else OrMulti(c.flags), plan.next, pid);
    NewMsgIsGood(h, c.payload);
    NewMsgIs(h, c.payload);
    if msgs != [] {
      assert GoodMsg(Last(msgs));
      MultiIsGood(Last(msgs));
      assert Is(Last(msgs), plan.msgs[|msgs| - 1], pid);
      MultiIs(Last(msgs), plan.msgs[|msgs| - 1], pid);
    }
  }

  lemma SameFields(h: seq<byte>, h': seq<byte>)
    requires |h| == NLMSG_HDR && SameButLength(h, h')
    ensures HeaderAt(h', 0) == HeaderAt(h, 0).(len := Get32(h', 0))
  {
  }

  lemma BodyRealises(msgs: seq<Msg>, plan: seq<Planned>, pid: nat, msgs': seq<Msg>, body: seq<Cell>)
    requires Realises(msgs, plan, pid) && msgs != [] && msgs' != [] && Front(msgs') == Front(msgs)
    requires SameButLength(Last(msgs).hdr, Last(msgs').hdr) && GoodMsg(Last(msgs')) && Last(msgs').body == body
    ensures Realises(msgs', Replaced(plan, plan[|plan| - 1].(body := body)), pid)
  {
    assert Is(Last(msgs), plan[|plan| - 1], pid);
    SameFields(Last(msgs).hdr, Last(msgs').hdr);
    hide HeaderAt, Get32;
    forall i | 0 <= i < |msgs'| - 1 ensures msgs'[i] == msgs[i] {
      assert msgs'[i] == Front(msgs')[i];
    }
  }

  lemma AttrIsList(body: seq<Cell>, ty: nat, data: seq<byte>)
    ensures Append(body, [Attr(ty, data, NoSub)]) == PadTo(body) + Cells(AttrBytes(ty, data))
    ensures |data| <= USHRT_MAX - RTA_HDR ==> Fits([Attr(ty, data, NoSub)])
  {
    var a := Attr(ty, data, NoSub);
    assert [a][1..] == [];
    assert Append(PadTo(body) + Encode(a), []) == PadTo(body) + Encode(a);
    CellsConcat(AttrHdr(RTA_HDR + |data|, ty), data);
  }

  /** The context is where the plan is. */
  ghost predicate Follows(ctx: Context, plan: Plan)
    reads ctx
  {
    && ctx.Valid() && Realises(ctx.msgs, plan.msgs, ctx.pid) && ctx.seqno == plan.next < U32
    && (plan.msgs == [] <==> ctx.curmsg < 0)
    && (plan.msgs == [] ==> ctx.datalen == 0 && |ctx.buffer| == 1024)
  }

  method ApplyMessage(ctx: Context, c: Call, ghost plan: Plan)
    requires Follows(ctx, plan) && c.Message? && Align(ctx.datalen) + CallSpace(c) < LIMIT
    requires plan.msgs == [] ==> CallSpace(c) <= 1024
    modifies ctx
    ensures Follows(ctx, PlanMessage(plan, c)) && PlanMessage(plan, c).msgs != []
    ensures Align(ctx.datalen) <= Align(old(ctx.datalen)) + CallSpace(c)
  {
    hide Coherent, GoodMsgs, LastAt, Multi, NewMsg, Realises, OrMulti;
    ctx.AddMessage(c.ty, c.flags, c.payload);
    MessageRealises(old(ctx.msgs), plan, c, ctx.pid, ctx.msgs) by {
      SameLength(old(ctx.msgs), plan.msgs, ctx.pid);
    }
  }

  lemma SameLength(msgs: seq<Msg>, plan: seq<Planned>, pid: nat)
    requires Realises(msgs, plan, pid)
    ensures |msgs| == |plan|
  {
  }

  method ApplyAttribute(ctx: Context, c: Call, ghost plan: Plan) returns (ok: bool)
    requires Follows(ctx, plan) && c.Attribute? && GoodCall(c) && Align(ctx.datalen) + CallSpace(c) < LIMIT
    modifies ctx
    ensures ctx.Valid() && (ok <==> PlanCall(plan, c).Some?)
    ensures ok ==> Follows(ctx, PlanCall(plan, c).value) && Align(ctx.datalen) <= Align(old(ctx.datalen)) + CallSpace(c)
  {
    hide Coherent, GoodMsgs, LastAt, Realises, Append, AttrBytes, Fits, SameButLength, PadTo, Cells, GoodMsg;
    var data := c.data;
    ok := ctx.AddAttr(c.ty, data);
    AttrIsList(old(ctx.Body()), c.ty, data);
    if ok {
      assert AttrBytes(c.ty, data)[..RtaLength(|data|)] == AttrBytes(c.ty, data);
      LastIsGood(ctx);
      LastIsPlanned(old(ctx.msgs), plan.msgs, ctx.pid);
      BodyRealises(old(ctx.msgs), plan.msgs, ctx.pid, ctx.msgs, ctx.Body());
    } else {
      SameLength(ctx.msgs, plan.msgs, ctx.pid);
    }
  }

  method ApplyList(ctx: Context, c: Call, ghost plan: Plan) returns (ok: bool)
    requires Follows(ctx, plan) && c.Attributes? && GoodCall(c) && Align(ctx.datalen) + CallSpace(c) < LIMIT
    modifies ctx
    ensures ctx.Valid() && (ok <==> PlanCall(plan, c).Some?)
    ensures ok ==> Follows(ctx, PlanCall(plan, c).value) && Align(ctx.datalen) <= Align(old(ctx.datalen)) + CallSpace(c)
  {
    hide Coherent, GoodMsgs, LastAt, Realises, Append, Fits, Space, NoWrap;
    var ret := ctx.AddAttrList(c.list);
    ok := ret >= 0;
    if ok && ctx.curmsg >= 0 {
      LastIsGood(ctx);
      LastIsPlanned(old(ctx.msgs), plan.msgs, ctx.pid);
      BodyRealises(old(ctx.msgs), plan.msgs, ctx.pid, ctx.msgs, ctx.Body());
      NothingAppended(old(ctx.Body()), plan.msgs);
    }
    FitsNothing();
  }

  lemma FitsNothing()
    ensures Fits([])
  {
  }

  lemma NothingAppended(body: seq<Cell>, plan: seq<Planned>)
    requires plan != [] && plan[|plan| - 1].body == body
    ensures Append(body, []) == body && Replaced(plan, plan[|plan| - 1].(body := body)) == plan
  {
  }

  lemma LastIsGood(ctx: Context)
    requires ctx.Valid() && ctx.curmsg >= 0
    ensures ctx.msgs != [] && GoodMsg(Last(ctx.msgs))
  {
  }

  lemma LastIsPlanned(msgs: seq<Msg>, plan: seq<Planned>, pid: nat)
    requires Realises(msgs, plan, pid) && msgs != []
    ensures |plan| == |msgs| && Last(msgs).body == plan[|plan| - 1].body
  {
    assert Is(msgs[|msgs| - 1], plan[|msgs| - 1], pid);
  }

  /** One call keeps the buffer to the plan; it fails exactly if the plan does. */
  method Apply(ctx: Context, c: Call, ghost plan: Plan) returns (ok: bool)
    requires Follows(ctx, plan) && GoodCall(c) && Align(ctx.datalen) + CallSpace(c) < LIMIT
    requires plan.msgs == [] && c.Message? ==> CallSpace(c) <= 1024
    modifies ctx
    ensures ctx.Valid() && (ok <==> PlanCall(plan, c).Some?)
    ensures
      ok ==>
        && Follows(ctx, PlanCall(plan, c).value) && (c.Message? ==> PlanCall(plan, c).value.msgs != [])
        && Align(ctx.datalen) <= Align(old(ctx.datalen)) + CallSpace(c)
  {
    match c
    case Message(_, _, _) =>
      ApplyMessage(ctx, c, plan);
      ok := true;
    case Attribute(_, _) => ok := ApplyAttribute(ctx, c, plan);
    case Attributes(_) => ok := ApplyList(ctx, c, plan);
  }

  lemma {:induction false} PlanFails(calls: seq<Call>, n: nat)
    requires n <= |calls| && PlanAll(calls[..n]).None?
    ensures PlanAll(calls).None?
    decreases |calls|
  {
    if n < |calls| {
      var init := calls[..|calls| - 1];
      assert init[..n] == calls[..n];
      PlanFails(init, n);
    } else {
      assert calls[..n] == calls;
    }
  }

  lemma PlanGrows(plan: Plan, c: Call)
    requires plan.next < U32 && plan.msgs != [] && PlanCall(plan, c).Some?
    ensures PlanCall(plan, c).value.msgs != []
  {
    hide Fits, Append;
  }

  lemma PlanNext(calls: seq<Call>, n: nat)
    requires n < |calls| && PlanAll(calls[..n]).Some?
    ensures PlanAll(calls[..n + 1]) == PlanCall(PlanAll(calls[..n]).value, calls[n])
  {
    var init := calls[..n + 1];
    assert init[..|init| - 1] == calls[..n];
  }

  lemma RestOfCalls(calls: seq<Call>, n: nat)
    requires n < |calls|
    ensures Total(calls[n..]) == CallSpace(calls[n]) + Total(calls[n + 1..])
    ensures FirstFits(calls[n..]) ==> if calls[n].Message? then CallSpace(calls[n]) <= 1024 else FirstFits(calls[n + 1..])
  {
    assert calls[n..][1..] == calls[n + 1..];
  }

  /**
   Any sequence of calls on a new context, with whatever regrowth of the buffer. It succeeds exactly if the plan
   does; the buffer then holds the planned messages, header fields, payloads and recursively encoded attributes,
   the current message ends at the end of the data, and a walk over the buffer visits exactly these messages.
   */
  method Build(calls: seq<Call>) returns (ctx: Context, ok: bool)
    requires (forall i | 0 <= i < |calls| :: GoodCall(calls[i])) && Total(calls) < LIMIT && FirstFits(calls)
    ensures ctx.Valid() && (ok <==> PlanAll(calls).Some?)
    ensures
      ok ==>
        && Realises(ctx.msgs, PlanAll(calls).value.msgs, ctx.pid)
        && ctx.datalen <= |ctx.buffer| && Visits(ctx.buffer, Walk(ctx.buffer, ctx.datalen, 0), ctx.msgs)
        && (ctx.curmsg >= 0 ==> ctx.msgs != [] && ctx.curmsg + NLMSG_HDR + |Last(ctx.msgs).body| == ctx.datalen)
  {
    hide Realises, PlanAll, PlanCall, Total, FirstFits, CallSpace, Coherent;
    ctx := new Context();
    assert calls[..0] == [] && calls[0..] == calls;
    StartOfPlan(ctx.pid);
    ghost var plan := Plan([], 0);
    ok := true;
    for n := 0 to |calls|
      invariant Follows(ctx, plan) && fresh(ctx) && PlanAll(calls[..n]) == Some(plan)
      invariant plan.msgs == [] ==> FirstFits(calls[n..])
      invariant Align(ctx.datalen) + Total(calls[n..]) < LIMIT
    {
      RestOfCalls(calls, n);
      PlanNext(calls, n);
      ok := Apply(ctx, calls[n], plan);
      if !ok {
        PlanFails(calls, n + 1);
        return;
      }
      if plan.msgs != [] {
        PlanGrows(plan, calls[n]);
      }
      plan := PlanCall(plan, calls[n]).value;
    }
    assert calls[..|calls|] == calls;
    ok := true;
    EndOfStream(ctx);
  }

  lemma StartOfPlan(pid: nat)
    ensures PlanAll([]) == Some(Plan([], 0)) && Realises([], [], pid)
  {
  }

  lemma EndOfStream(ctx: Context)
    requires ctx.Valid()
    ensures ctx.datalen <= |ctx.buffer| && Visits(ctx.buffer, Walk(ctx.buffer, ctx.datalen, 0), ctx.msgs)
    ensures ctx.curmsg >= 0 ==> ctx.msgs != [] && ctx.curmsg + NLMSG_HDR + |Last(ctx.msgs).body| == ctx.datalen
  {
    WalkVisitsStream(ctx.buffer, ctx.msgs, ctx.clean);
    if ctx.curmsg >= 0 {
      StreamOfLast(ctx.msgs);
    }
  }
}
