/** The netlink context of lib/tst_rtnetlink.c and its in-place operations. */
module RtnetlinkContext {
  import opened Wrappers
  import opened NetlinkWire
  import opened Rtnetlink
  import opened RtnetlinkAcks

  function Zeros(n: nat): (r: seq<byte>)
    ensures |r| == n
  {
    seq(n, _ => 0)
  }

  lemma GrowCoherent(buffer: seq<byte>, datalen: nat, ms: seq<Msg>, clean: bool, n: nat)
    requires Coherent(buffer, datalen, ms, clean) && (|buffer| + n) % 4 == 0
    ensures Coherent(buffer + Zeros(n), datalen, ms, clean)
  {
  }

  /** seq++ on 32 bits */
  function NextSeq(s: nat): (r: nat)
    requires s < U32
    ensures r < U32
  {
    if s + 1 == U32 then 0 else s + 1
  }

  function OrMulti(flags: nat): (r: nat)
    requires flags < U16
    ensures r < U16
  {
    SetFlag(flags, NLM_F_MULTI)
  }

  /** A message whose header reads as h but for its length, with the given payload. */
  function NewMsg(h: Header, payload: seq<byte>): (m: Msg)
    requires GoodHeader(h) && NLMSG_HDR + |payload| < U32
    ensures |m.hdr| == NLMSG_HDR
  {
    Msg(PutHeader(h.(len := NLMSG_HDR + |payload|)), Cells(payload))
  }

  lemma NewMsgIsGood(h: Header, payload: seq<byte>)
    requires GoodHeader(h) && NLMSG_HDR + |payload| < U32
    ensures GoodMsg(NewMsg(h, payload))
    ensures HeaderAt(NewMsg(h, payload).hdr, 0) == h.(len := NLMSG_HDR + |payload|)
  {
    HeaderRoundTrip(h.(len := NLMSG_HDR + |payload|));
  }

  /** The flags of a message with NLM_F_MULTI or-ed in. */
  function Multi(m: Msg): Msg
    requires |m.hdr| == NLMSG_HDR
  {
    m.(hdr := Patch(m.hdr, 6, Put16(OrMulti(Get16(m.hdr, 6)))))
  }

  lemma MultiIsGood(m: Msg)
    requires GoodMsg(m)
    ensures GoodMsg(Multi(m)) && Multi(m).body == m.body
    ensures
      var h := HeaderAt(m.hdr, 0);
      HeaderAt(Multi(m).hdr, 0) == h.(flags := OrMulti(h.flags))
  {
    SetFlags(m.hdr, OrMulti(Get16(m.hdr, 6)));
  }

  /** RTA_LENGTH, stored in an unsigned short. */
  function RtaLength(n: nat): (r: nat)
    requires n <= USHRT_MAX
    ensures r <= RTA_HDR + n
    ensures r == RTA_HDR + n <==> n <= USHRT_MAX - RTA_HDR
  {
    (RTA_HDR + n) % U16
  }

  /** A message with a new body and its length field brought up to date. */
  function Resized(m: Msg, body: seq<Cell>): (r: Msg)
    requires |m.hdr| == NLMSG_HDR && NLMSG_HDR + |body| < U32
    ensures |r.hdr| == NLMSG_HDR
  {
    Msg(Patch(m.hdr, 0, Put32(NLMSG_HDR + |body|)), body)
  }

  lemma ResizedIsGood(m: Msg, body: seq<Cell>)
    requires |m.hdr| == NLMSG_HDR && NLMSG_HDR + |body| < U32
    ensures GoodMsg(Resized(m, body))
    ensures HeaderAt(Resized(m, body).hdr, 0) == HeaderAt(m.hdr, 0).(len := NLMSG_HDR + |body|)
  {
    SetLength(m.hdr, NLMSG_HDR + |body|);
  }

  lemma GoodWithLast(ms: seq<Msg>, m: Msg)
    requires ms != [] && GoodMsgs(ms) && GoodMsg(m)
    ensures GoodMsgs(WithLast(ms, m)) && LastAt(WithLast(ms, m)) == LastAt(ms)
  {
  }

  lemma GoodMulti(ms: seq<Msg>)
    requires ms != [] && GoodMsgs(ms)
    ensures
      var ms' := WithLast(ms, Multi(Last(ms)));
      GoodMsgs(ms') && LastAt(ms') == LastAt(ms)
  {
    MultiIsGood(Last(ms));
    GoodWithLast(ms, Multi(Last(ms)));
  }

  lemma StreamFits(buffer: seq<byte>, datalen: nat, ms: seq<Msg>, clean: bool)
    requires Coherent(buffer, datalen, ms, clean)
    ensures |Stream(ms)| == datalen <= |buffer|
  {
  }

  /** Writing into the header of the last message, in the buffer. */
  lemma HeaderCoherent(buffer: seq<byte>, datalen: nat, ms: seq<Msg>, clean: bool, at: nat, x: seq<byte>)
    requires ms != [] && at + |x| <= |Last(ms).hdr| && Coherent(buffer, datalen, ms, clean)
    ensures LastAt(ms) + at + |x| <= |buffer|
    ensures
      var ms' := WithLast(ms, Last(ms).(hdr := Patch(Last(ms).hdr, at, x)));
      Coherent(Patch(buffer, LastAt(ms) + at, x), datalen, ms', clean)
  {
    hide Stream, Agree, Zero, Patch, PatchCells, LastAt;
    StreamFits(buffer, datalen, ms, clean);
    StreamSize(ms);
    PatchHeaderInStream(ms, at, x, Stream(ms));
    PatchCoherent(buffer, datalen, ms, clean, LastAt(ms) + at, x,
                  WithLast(ms, Last(ms).(hdr := Patch(Last(ms).hdr, at, x))));
  }

  /** The stream with n of the bytes x written at its aligned end. */
  lemma PartCoherent(buffer: seq<byte>, datalen: nat, ms: seq<Msg>, clean: bool, x: seq<byte>, n: nat)
    requires ms != [] && GoodMsgs(ms) && Coherent(buffer, datalen, ms, clean)
    requires n <= |x| && Align(datalen) + |x| <= |buffer| && Align(datalen) + |x| < LIMIT
    ensures
      Coherent(Patch(buffer, Align(datalen), x), Align(datalen) + n, Longer(ms, Cells(x[..n])), clean && n == |x|)
  {
    var at, all, part := Align(datalen), Longer(ms, Cells(x)), Longer(ms, Cells(x[..n]));
    StreamLonger(ms, Cells(x));
    StreamLonger(ms, Cells(x[..n]));
    AppendCoherent(buffer, datalen, ms, clean, x, all);
    assert Stream(part) == Stream(all)[..at + n];
    ShortenCoherent(Patch(buffer, at, x), at + |x|, all, clean, at + n, part);
  }

  /** Writing into the body of the last message, in the buffer. */
  lemma BodyCoherent(buffer: seq<byte>, datalen: nat, ms: seq<Msg>, clean: bool, at: nat, x: seq<byte>)
    requires ms != [] && GoodMsgs(ms) && at + |x| <= |Last(ms).body| && Coherent(buffer, datalen, ms, clean)
    ensures LastAt(ms) + NLMSG_HDR + at + |x| <= |buffer|
    ensures
      var ms' := WithLast(ms, Last(ms).(body := PatchCells(Last(ms).body, at, x)));
      Coherent(Patch(buffer, LastAt(ms) + NLMSG_HDR + at, x), datalen, ms', clean) && GoodMsgs(ms')
  {
    hide Stream, Agree, Zero, Patch, LastAt;
    StreamFits(buffer, datalen, ms, clean);
    StreamSize(ms);
    PatchBodyInStream(ms, at, x, Stream(ms));
    var m' := Last(ms).(body := PatchCells(Last(ms).body, at, x));
    GoodWithLast(ms, m');
    PatchCoherent(buffer, datalen, ms, clean, LastAt(ms) + NLMSG_HDR + at, x, WithLast(ms, m'));
  }

  /** Bringing the length field of the last message up to date, in the buffer. */
  lemma ResizeCoherent(buffer: seq<byte>, datalen: nat, ms: seq<Msg>, clean: bool, len: nat)
    requires ms != [] && |Last(ms).hdr| == NLMSG_HDR && GoodMsgs(Front(ms)) && Coherent(buffer, datalen, ms, clean)
    requires len == NLMSG_HDR + |Last(ms).body| < U32
    ensures LastAt(ms) + 4 <= |buffer|
    ensures
      var ms' := WithLast(ms, Resized(Last(ms), Last(ms).body));
      && Coherent(Patch(buffer, LastAt(ms), Put32(len)), datalen, ms', clean) && GoodMsgs(ms')
      && LastAt(ms') == LastAt(ms)
  {
    var m := Last(ms);
    ResizedIsGood(m, m.body);
    HeaderCoherent(buffer, datalen, ms, clean, 0, Put32(len));
  }

  lemma ResizedSame(m: Msg, body: seq<Cell>)
    requires |m.hdr| == NLMSG_HDR && NLMSG_HDR + |body| < U32
    ensures SameButLength(m.hdr, Resized(m, body).hdr)
  {
  }

  /** Two headers that differ in the length field at most. */
  predicate SameButLength(h: seq<byte>, h': seq<byte>) {
    |h'| == |h| && forall i | 4 <= i < |h| :: h'[i] == h[i]
  }

  // ----- Lemmas about the operations -----

  const NLMSG_DONE := 3

  function DoneMsg(seqno: nat, pid: nat): Msg
    requires seqno < U32 && pid < U32
  {
    NewMsg(Header(0, NLMSG_DONE, 0, seqno, pid), [])
  }

  function Unflagged(m: Msg): Msg
    requires |m.hdr| == NLMSG_HDR
  {
    m.(hdr := Patch(m.hdr, 6, Put16(0)))
  }

  lemma UnflaggedIsGood(m: Msg)
    requires GoodMsg(m)
    ensures GoodMsg(Unflagged(m)) && HeaderAt(Unflagged(m).hdr, 0) == HeaderAt(m.hdr, 0).(flags := 0)
  {
    SetFlags(m.hdr, 0);
  }

  lemma DoneIsCleared(seqno: nat, pid: nat)
    requires seqno < U32 && pid < U32
    ensures Unflagged(NewMsg(Header(0, NLMSG_DONE, OrMulti(0), seqno, pid), [])) == DoneMsg(seqno, pid)
  {
  }

  lemma ListStep(c: seq<Cell>, list: seq<Attr>, i: nat)
    requires i < |list| && NoWrap(list)
    ensures NoWrap([list[i]])
    ensures Append(c, list[i..]) == Append(PadTo(c) + Encode(list[i]), list[i + 1..])
    ensures Space(list[i..]) == SpaceOf(list[i]) + Space(list[i + 1..])
  {
    assert list[i] in list && list[i..][1..] == list[i + 1..];
  }

  lemma ListEnd(c: seq<Cell>, list: seq<Attr>)
    ensures Append(c, list[|list|..]) == c && Space(list[|list|..]) == 0
  {
  }

  lemma InnerIsLong(a: Attr)
    ensures |a.data| <= |Inner(a)|
  {
    if a.sub.Sub? {
      AppendGrows(Cells(a.data), a.sub.list);
    }
  }

  class Context {
    var buffer: seq<byte>
    var datalen: nat
    var curmsg: int          // offset of the current message, or -1
    var seqno: nat
    const pid: nat := 0
    ghost var msgs: seq<Msg> // what the buffer holds, as the encoder sees it
    ghost var clean: bool    // nothing has been sent yet

    ghost predicate Valid()
      reads this
    {
      && Coherent(buffer, datalen, msgs, clean) && GoodMsgs(msgs)
      && seqno < U32 && -1 <= curmsg
      && (curmsg >= 0 ==> msgs != [] && curmsg == LastAt(msgs))
    }

    constructor ()
      ensures Valid() && msgs == [] && curmsg == -1 && clean && seqno == 0 && datalen == 0 && |buffer| == 1024
    {
      buffer := Zeros(1024);
      datalen, curmsg, seqno := 0, -1, 0;
      msgs, clean := [], true;
    }

    /**
     tst_rtnl_grow_buffer: room for `size` bytes after the aligned data. A buffer without a current message
     must not need to grow: the relocation of the current message is meaningless without one.
     */
    method GrowBuffer(size: nat)
      requires Valid()
      requires curmsg >= 0 || Align(datalen) + size <= |buffer|
      modifies this`buffer
      ensures Valid() && old(buffer) <= buffer && Align(datalen) + size <= |buffer|
      ensures Align(datalen) + size <= |old(buffer)| ==> buffer == old(buffer)
    {
      var curlen := Align(datalen);
      if |buffer| - curlen >= size {
        return;
      }
      var needed := size - (|buffer| - curlen);
      var newsize := Align(|buffer| + (if |buffer| > needed then |buffer| else needed));
      GrowCoherent(buffer, datalen, msgs, clean, newsize - |buffer|);
      buffer := buffer + Zeros(newsize - |buffer|);
    }

    /** ctx->curmsg->nlmsg_len, aligned */
    method CurrentSize() returns (size: nat)
      requires Valid() && curmsg >= 0
      ensures curmsg + size == Align(datalen)
    {
      hide Coherent, Stream, Get16;
      ReadLast(buffer, datalen, msgs, clean);
      var len := Get32(buffer, curmsg);
      AlignShift(curmsg, len);
      size := Align(len);
    }

    /** ctx->curmsg->nlmsg_flags */
    method CurrentFlags() returns (flags: nat)
      requires Valid() && curmsg >= 0
      ensures flags < U16 && |Last(msgs).hdr| == NLMSG_HDR && flags == Get16(Last(msgs).hdr, 6)
      ensures curmsg + NLMSG_HDR <= |buffer|
    {
      ReadLast(buffer, datalen, msgs, clean);
      flags := Get16(buffer, curmsg + 6);
    }

    /** ctx->curmsg->nlmsg_flags |= NLM_F_MULTI */
    method MarkCurrent()
      requires Valid() && curmsg >= 0
      modifies this`buffer, this`msgs
      ensures Valid() && msgs == WithLast(old(msgs), Multi(Last(old(msgs)))) && |buffer| == |old(buffer)|
    {
      hide Coherent, Stream, Patch, Put16, Get16, OrMulti;
      GoodMulti(msgs);
      var flags := CurrentFlags();
      flags := OrMulti(flags);
      HeaderCoherent(buffer, datalen, msgs, clean, 6, Put16(flags));
      buffer := Patch(buffer, curmsg + 6, Put16(flags));
      msgs := WithLast(msgs, Multi(Last(msgs)));
    }

    /** Moves `curmsg` to where the next message goes; says whether there is one before it. */
    method StartMessage() returns (extra: bool)
      requires Valid()
      modifies this`buffer, this`datalen, this`curmsg, this`msgs, this`clean
      ensures Coherent(buffer, datalen, msgs, clean) && GoodMsgs(msgs) && |buffer| == |old(buffer)|
      ensures extra == (old(curmsg) >= 0)
      ensures msgs == if extra then WithLast(old(msgs), Multi(Last(old(msgs)))) else []
      ensures datalen == if extra then old(datalen) else 0
      ensures curmsg == Align(datalen)
      ensures clean == (old(clean) && (extra || old(datalen) == 0))
    {
      extra := curmsg >= 0;
      if !extra {
        clean := clean && datalen == 0;
        datalen, curmsg, msgs := 0, 0, [];
      } else {
        var size := CurrentSize();
        MarkCurrent();
        curmsg := curmsg + size;
      }
    }

    /** The header and the payload of the current message, and the new end of the data. */
    method WriteMessage(h: Header, payload: seq<byte>)
      requires Coherent(buffer, datalen, msgs, clean) && GoodMsgs(msgs) && curmsg == Align(datalen) && seqno < U32
      requires GoodHeader(h) && curmsg + NLMSG_HDR + |payload| <= |buffer| && curmsg + NLMSG_HDR + |payload| < LIMIT
      modifies this`buffer, this`datalen, this`msgs
      ensures Valid() && msgs == old(msgs) + [NewMsg(h, payload)]
      ensures datalen == Align(old(datalen)) + NLMSG_HDR + |payload|
    {
      ghost var m := NewMsg(h, payload);
      var x := PutHeader(h.(len := NLMSG_HDR + |payload|)) + payload;
      NewMsgIsGood(h, payload);
      StreamSnoc(msgs, m);
      CellsConcat(PutHeader(h.(len := NLMSG_HDR + |payload|)), payload);
      AppendCoherent(buffer, datalen, msgs, clean, x, msgs + [m]);
      assert Front(msgs + [m]) == msgs;
      buffer := Patch(buffer, curmsg, x);
      datalen := Align(datalen) + NLMSG_HDR + |payload|;
      msgs := msgs + [m];
    }

    /**
     tst_rtnl_add_message: the stream gains one message, and the one before it is marked multi-part. With no
     current message the old stream is dropped.
     */
    method AddMessage(ty: nat, flags: nat, payload: seq<byte>)
      requires Valid() && ty < U16 && flags < U16
      requires Align(datalen) + Align(NLMSG_HDR + |payload|) < LIMIT
      requires curmsg >= 0 || Align(datalen) + Align(NLMSG_HDR + |payload|) <= |buffer|
      modifies this
      ensures Valid() && curmsg >= 0
      ensures seqno == NextSeq(old(seqno))
      ensures datalen == (if old(curmsg) < 0 then 0 else Align(old(datalen))) + NLMSG_HDR + |payload|
      ensures
        msgs ==
        (if old(curmsg) < 0 then [] else WithLast(old(msgs), Multi(Last(old(msgs)))))
        + [NewMsg(Header(0, ty, if old(curmsg) < 0 then flags else OrMulti(flags), old(seqno), pid), payload)]
      ensures old(curmsg) >= 0 || old(datalen) == 0 ==> clean == old(clean)
    {
      hide Coherent, Multi, PutHeader;
      GrowBuffer(Align(NLMSG_HDR + |payload|));
      var extra := StartMessage();
      WriteMessage(Header(0, ty, if extra then OrMulti(flags) else flags, seqno, pid), payload);
      seqno := NextSeq(seqno);
    }

    /** Only the last message may have changed: its body, and its header as far as the length goes. */
    twostate predicate OnlyBody()
      reads this
    {
      && curmsg == old(curmsg) && seqno == old(seqno) && (curmsg < 0 ==> msgs == old(msgs))
      && (curmsg >= 0 ==>
            && msgs != [] && old(msgs) != [] && Front(msgs) == Front(old(msgs))
            && SameButLength(Last(old(msgs)).hdr, Last(msgs).hdr))
    }

    ghost function Body(): seq<Cell>
      reads this
    {
      if msgs == [] then [] else Last(msgs).body
    }

    /** Writes `x` at the aligned end, counts n bytes of it, and stores the message's new length. */
    method WriteAttr(at: nat, x: seq<byte>, n: nat, len: nat)
      requires Valid() && curmsg >= 0 && at == Align(datalen) && at + |x| <= |buffer| && at + |x| < LIMIT
      requires n <= |x| && len == at + n - curmsg
      modifies this`buffer, this`datalen, this`msgs, this`clean
      ensures Valid() && OnlyBody() && datalen == at + n && clean == (old(clean) && n == |x|)
      ensures Body() == PadTo(old(Body())) + Cells(x[..n])
    {
      hide Coherent, Stream, Patch, Put32;
      ReadLast(buffer, datalen, msgs, clean);
      AlignAfterHeader(curmsg, |Last(msgs).body|);
      PartCoherent(buffer, datalen, msgs, clean, x, n);
      ghost var ms := Longer(msgs, Cells(x[..n]));
      ResizedSame(Last(ms), Last(ms).body);
      buffer := Patch(buffer, at, x);
      ResizeCoherent(buffer, at + n, ms, clean && n == |x|, len);
      buffer := Patch(buffer, curmsg, Put32(len));
      datalen := at + n;
      msgs, clean := WithLast(ms, Resized(Last(ms), Last(ms).body)), clean && n == |x|;
    }

    /**
     tst_rtnl_add_attr: the message's body gains one attribute, on an aligned offset. The length field is 16
     bits wide: data of 65532 to 65535 bytes leave a length of 0 to 3, and only that much is counted.
     */
    method AddAttr(ty: nat, data: seq<byte>) returns (ok: bool)
      requires Valid() && |data| <= USHRT_MAX
      requires Align(datalen) + Align(RTA_HDR + |data|) < LIMIT
      modifies this`buffer, this`datalen, this`msgs, this`clean
      ensures Valid() && OnlyBody()
      ensures ok == (curmsg >= 0)
      ensures !ok ==> buffer == old(buffer) && datalen == old(datalen) && clean == old(clean)
      ensures ok ==> Body() == PadTo(old(Body())) + Cells(AttrBytes(ty, data)[..RtaLength(|data|)])
      ensures ok ==> datalen == Align(old(datalen)) + RtaLength(|data|)
      ensures |data| <= USHRT_MAX - RTA_HDR ==> clean == old(clean)
    {
      ok := curmsg >= 0;
      if !ok {
        return;
      }
      GrowBuffer(Align(RTA_HDR + |data|));
      var size := CurrentSize();
      var rtaLen := RtaLength(|data|);
      WriteAttr(curmsg + size, AttrBytes(ty, data), rtaLen, size + rtaLen);
    }

    /** attr->rta_len = len, for the attribute at `offset` of the buffer */
    method PatchAttrLen(offset: nat, len: nat)
      requires Valid() && curmsg >= 0 && len < U16
      requires curmsg + NLMSG_HDR <= offset && offset + 2 <= datalen
      modifies this`buffer, this`msgs
      ensures Valid() && OnlyBody() && |buffer| == |old(buffer)|
      ensures
        var at := offset - curmsg - NLMSG_HDR;
        at + 2 <= |old(Body())| && Body() == PatchCells(old(Body()), at, Put16(len))
    {
      hide Coherent, Stream, Patch, Put16;
      ReadLast(buffer, datalen, msgs, clean);
      var at, m := offset - curmsg - NLMSG_HDR, Last(msgs);
      BodyCoherent(buffer, datalen, msgs, clean, at, Put16(len));
      buffer := Patch(buffer, offset, Put16(len));
      msgs := WithLast(msgs, m.(body := PatchCells(m.body, at, Put16(len))));
    }

    /** Where the data ends, in terms of the body. */
    lemma EndOfBody()
      requires Valid() && curmsg >= 0
      ensures curmsg + NLMSG_HDR + |Body()| == datalen && curmsg % 4 == 0
    {
      ReadLast(buffer, datalen, msgs, clean);
    }

    /**
     One turn of the loop in tst_rtnl_add_attr_list: it succeeds exactly if the attribute fits, and then what
     it leaves in the buffer is the encoding, with a length that spans the data and everything nested in it.
     */
    method AddListed(a: Attr) returns (ok: bool)
      requires Valid() && NoWrap([a]) && Align(datalen) + SpaceOf(a) < LIMIT
      modifies this`buffer, this`datalen, this`msgs, this`clean
      ensures Valid() && OnlyBody() && clean == old(clean)
      ensures ok <==> curmsg >= 0 && FitsAttr(a)
      ensures ok ==> Align(datalen) <= Align(old(datalen)) + SpaceOf(a) && Body() == PadTo(old(Body())) + Encode(a)
      decreases a
    {
      hide Coherent, LastAt, GoodMsgs;
      assert a in [a];
      InnerIsLong(a);
      if |a.data| > USHRT_MAX {
        return false;
      }
      var offset := Align(datalen);
      ok := AddAttr(a.ty, a.data);
      if !ok {
        return;
      }
      assert AttrBytes(a.ty, a.data)[..RtaLength(|a.data|)] == AttrBytes(a.ty, a.data);
      AlignShift(offset, RTA_HDR + |a.data|);
      if a.sub.NoSub? {
        FlatEncodes(a);
      } else {
        ok := AddNested(a, offset, old(Body()));
      }
    }

    /** The sublist of an attribute just added at `offset`, and the length of the whole. */
    method AddNested(a: Attr, offset: nat, ghost b: seq<Cell>) returns (ok: bool)
      requires Valid() && curmsg >= 0 && a.sub.Sub? && NoWrap(a.sub.list)
      requires Align(datalen) + Space(a.sub.list) < LIMIT
      requires Body() == PadTo(b) + Cells(AttrBytes(a.ty, a.data)) && datalen == offset + RTA_HDR + |a.data|
      modifies this`buffer, this`datalen, this`msgs, this`clean
      ensures Valid() && OnlyBody() && clean == old(clean)
      ensures ok <==> FitsAttr(a)
      ensures ok ==> Align(datalen) <= Align(old(datalen)) + Space(a.sub.list) && Body() == PadTo(b) + Encode(a)
      decreases a, 0
    {
      hide Coherent, LastAt, GoodMsgs, Append, Encode, Space, SpaceOf, Fits, NoWrap, AttrBytes, Align;
      hide PadTo, Cells;
      EndOfBody();
      NestedGrows(PadTo(b), a);
      var ret := AddAttrList(a.sub.list);
      if ret < 0 {
        return false;
      }
      EndOfBody();
      if datalen - offset > USHRT_MAX {
        return false;
      }
      NestedEncodes(b, a);
      PatchAttrLen(offset, datalen - offset);
      ok := true;
    }

    /**
     tst_rtnl_add_attr_list: for lists without a data length that wraps around in add_attr, it succeeds exactly
     if every attribute and sublist fits its length field, and the body then is what the encoder appends.
     */
    method AddAttrList(list: seq<Attr>) returns (ret: int)
      requires Valid() && NoWrap(list) && Align(datalen) + Space(list) < LIMIT
      modifies this`buffer, this`datalen, this`msgs, this`clean
      ensures Valid() && OnlyBody() && clean == old(clean)
      ensures ret == if Fits(list) && (curmsg >= 0 || list == []) then |list| else -1
      ensures ret >= 0 ==> Align(datalen) <= Align(old(datalen)) + Space(list)
      ensures ret >= 0 && curmsg >= 0 ==> Body() == Append(old(Body()), list)
      ensures list == [] ==> buffer == old(buffer) && datalen == old(datalen)
      decreases list
    {
      hide Coherent, LastAt, GoodMsgs, Append, Encode, Space, SpaceOf, FitsAttr, NoWrap;
      assert list[0..] == list;
      var i := 0;
      while i < |list|
        invariant 0 <= i <= |list|
        invariant Valid() && OnlyBody() && clean == old(clean)
        invariant if i > 0 then curmsg >= 0 else buffer == old(buffer) && datalen == old(datalen)
        invariant forall k | 0 <= k < i :: FitsAttr(list[k])
        invariant Align(datalen) + Space(list[i..]) <= Align(old(datalen)) + Space(list)
        invariant Append(Body(), list[i..]) == Append(old(Body()), list)
      {
        ListStep(Body(), list, i);
        var ok := AddListed(list[i]);
        if !ok {
          return -1;
        }
        i := i + 1;
      }
      ListEnd(Body(), list);
      ret := i;
    }

    /**
     tst_rtnl_send, up to the system call: a multi-part stream is closed with an NLMSG_DONE message that is not
     itself marked multi-part. If the call succeeds there is no current message any more, but the stream stays.
     */
    method Send(sent: bool) returns (ok: bool)
      requires Valid() && Align(datalen) + NLMSG_HDR < LIMIT
      modifies this
      ensures Valid() && (old(curmsg) < 0 ==> !ok && msgs == old(msgs) && curmsg == old(curmsg))
      ensures
        old(curmsg) >= 0 ==>
          && ok == sent && (if sent then curmsg == -1 else curmsg >= 0) && GoodMsgs(old(msgs))
          && msgs ==
             if HasFlag(Get16(Last(old(msgs)).hdr, 6), NLM_F_MULTI)
             then WithLast(old(msgs), Multi(Last(old(msgs)))) + [DoneMsg(old(seqno), pid)]
             else old(msgs)
    {
      ok := curmsg >= 0;
      if !ok {
        return;
      }
      var flags := CurrentFlags();
      if HasFlag(flags, NLM_F_MULTI) {
        AddMessage(NLMSG_DONE, 0, []);
        ClearFlags();
        DoneIsCleared(old(seqno), pid);
      }
      ok := sent;
      if sent {
        curmsg := -1;
      }
    }

    /** ctx->curmsg->nlmsg_flags = 0 */
    method ClearFlags()
      requires Valid() && curmsg >= 0
      modifies this`buffer, this`msgs
      ensures Valid() && GoodMsgs(old(msgs)) && msgs == WithLast(old(msgs), Unflagged(Last(old(msgs))))
    {
      hide Coherent, Stream, Patch, Put16, Get16;
      var flags := CurrentFlags();
      HeaderCoherent(buffer, datalen, msgs, clean, 6, Put16(0));
      UnflaggedIsGood(Last(msgs));
      GoodWithLast(msgs, Unflagged(Last(msgs)));
      buffer := Patch(buffer, curmsg + 6, Put16(0));
      msgs := WithLast(msgs, Unflagged(Last(msgs)));
    }

    lemma WalkStart()
      requires Valid()
      ensures datalen <= |buffer| && GoodMsgs(msgs) && Visits(buffer, Walk(buffer, datalen, 0), msgs)
    {
      WalkVisitsStream(buffer, msgs, clean);
    }

    /**
     tst_rtnl_check_acks: walks the messages of the stream and, for each that asks for an acknowledgement, the
     responses `res`, found in the received bytes `s`. The place in the responses is never moved back.
     */
    method CheckAcks(s: seq<byte>, res: array<Option<Received>>, ghost ms: seq<Received>) returns (ok: bool)
      requires Valid() && Ended(res[..], ms) && AllWhole(s, ms)
      ensures ok <==> Acked(AckSeqs(msgs), ResponsesOf(s, ms))
    {
      WalkStart();
      ok := CheckRequests(buffer, datalen, msgs, s, res, ms);
    }

    /**
     The end of tst_rtnl_send_validate: the received bytes are taken apart and checked. Sent requests are validated
     if and only if the bytes hold responses that acknowledge them.
     */
    method Validate(s: seq<byte>) returns (ok: bool)
      requires Valid() && AllWhole(s, ReceivedFrom(s, 0))
      ensures ok <==> s != [] && Acked(AckSeqs(msgs), ResponsesOf(s, ReceivedFrom(s, 0)))
    {
      hide Coherent, Acked, AckSeqs;
      var res := Messages(s);
      if res == null {
        return false;
      }
      ok := CheckAcks(s, res, ReceivedFrom(s, 0));
    }
  }
}
