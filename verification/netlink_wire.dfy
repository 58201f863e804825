/**
 The netlink wire format that lib/tst_rtnetlink.c builds: message headers and attributes as in section
 2.3.2 of RFC 3549, in the byte order of the host (taken to be little endian).

 Encodings are sequences of cells. A cell is a byte or padding: the builder leaves in the padding whatever
 the buffer held there, so padding is only known to be zero in a buffer that has never been sent.
 */
module NetlinkWire {
  type byte = x: int | 0 <= x < 256

  datatype Cell = Byte(b: byte) | Pad

  // ----- Numbers -----

  const U16: int := 0x1_0000
  const U32: int := 0x1_0000_0000

  function Put16(x: nat): (r: seq<byte>)
    requires x < U16
    ensures |r| == 2
  {
    [x % 256, x / 256]
  }

  function Put32(x: nat): (r: seq<byte>)
    requires x < U32
    ensures |r| == 4
  {
    Put16(x % U16) + Put16(x / U16)
  }

  function Get16(s: seq<byte>, at: nat): (x: nat)
    requires at + 2 <= |s|
    ensures x < U16
  {
    var lo: int, hi: int := s[at], s[at + 1];
    lo + 256 * hi
  }

  function Get32(s: seq<byte>, at: nat): (x: nat)
    requires at + 4 <= |s|
    ensures x < U32
  {
    Get16(s, at) + U16 * Get16(s, at + 2)
  }

  lemma Get16Put16(s: seq<byte>, at: nat, x: nat)
    requires x < U16 && at + 2 <= |s| && s[at..at + 2] == Put16(x)
    ensures Get16(s, at) == x
  {
    assert s[at] == s[at..at + 2][0] && s[at + 1] == s[at..at + 2][1];
  }

  lemma Get32Put32(s: seq<byte>, at: nat, x: nat)
    requires x < U32 && at + 4 <= |s| && s[at..at + 4] == Put32(x)
    ensures Get32(s, at) == x
  {
    assert s[at..at + 2] == s[at..at + 4][..2];
    assert s[at + 2..at + 4] == s[at..at + 4][2..];
    Get16Put16(s, at, x % U16);
    Get16Put16(s, at + 2, x / U16);
  }

  // ----- Cells -----

  /** NLMSG_ALIGN and RTA_ALIGN. */
  function Align(n: nat): (r: nat)
    ensures n <= r < n + 4 && r % 4 == 0
  {
    (n + 3) / 4 * 4
  }

  lemma AlignShift(a: nat, n: nat)
    requires a % 4 == 0
    ensures Align(a + n) == a + Align(n)
  {
  }

  function Cells(s: seq<byte>): (r: seq<Cell>)
    ensures |r| == |s|
  {
    seq(|s|, i requires 0 <= i < |s| => Byte(s[i]))
  }

  function Pads(n: nat): (r: seq<Cell>)
    ensures |r| == n
  {
    seq(n, _ => Pad)
  }

  function PadTo(c: seq<Cell>): (r: seq<Cell>)
    ensures |r| == Align(|c|)
  {
    c + Pads(Align(|c|) - |c|)
  }

  lemma PadToShift(p: seq<Cell>, c: seq<Cell>)
    requires |p| % 4 == 0
    ensures PadTo(p + c) == p + PadTo(c)
  {
    AlignShift(|p|, |c|);
  }

  predicate Matches(c: Cell, b: byte, clean: bool) {
    match c
    case Byte(x) => b == x
    case Pad => clean ==> b == 0
  }

  /** The bytes from `at` on are an instance of the cells; with `clean`, the one with zero padding. */
  ghost predicate Agree(c: seq<Cell>, s: seq<byte>, at: nat, clean: bool) {
    at + |c| <= |s| && forall i | 0 <= i < |c| :: Matches(c[i], s[at + i], clean)
  }

  lemma AgreeSplit(c: seq<Cell>, d: seq<Cell>, s: seq<byte>, at: nat, clean: bool)
    requires Agree(c + d, s, at, clean)
    ensures Agree(c, s, at, clean) && Agree(d, s, at + |c|, clean)
  {
    forall i | 0 <= i < |c| ensures Matches(c[i], s[at + i], clean) {
      assert (c + d)[i] == c[i];
    }
    forall i | 0 <= i < |d| ensures Matches(d[i], s[at + |c| + i], clean) {
      assert (c + d)[|c| + i] == d[i] && Matches((c + d)[|c| + i], s[at + (|c| + i)], clean);
    }
  }

  lemma AgreeBytes(t: seq<byte>, s: seq<byte>, at: nat, clean: bool)
    requires Agree(Cells(t), s, at, clean)
    ensures forall i | 0 <= i < |t| :: s[at + i] == t[i]
  {
    forall i | 0 <= i < |t| ensures s[at + i] == t[i] {
      assert Matches(Cells(t)[i], s[at + i], clean);
    }
  }

  function Patch(s: seq<byte>, at: nat, x: seq<byte>): (r: seq<byte>)
    requires at + |x| <= |s|
    ensures |r| == |s|
  {
    s[..at] + x + s[at + |x|..]
  }

  function PatchCells(c: seq<Cell>, at: nat, x: seq<byte>): (r: seq<Cell>)
    requires at + |x| <= |c|
    ensures |r| == |c|
  {
    c[..at] + Cells(x) + c[at + |x|..]
  }

  /** Writing inside the encoded part. */
  lemma PatchAgrees(c: seq<Cell>, s: seq<byte>, at: nat, x: seq<byte>, clean: bool)
    requires Agree(c, s, 0, clean) && at + |x| <= |c|
    ensures Agree(PatchCells(c, at, x), Patch(s, at, x), 0, clean)
  {
    var c', s' := PatchCells(c, at, x), Patch(s, at, x);
    forall i | 0 <= i < |c'| ensures Matches(c'[i], s'[0 + i], clean) {
      assert Matches(c[i], s[0 + i], clean);
    }
  }

  ghost predicate Zero(s: seq<byte>, from: nat) {
    forall i | from <= i < |s| :: s[i] == 0
  }

  /** Writing at the aligned end: the gap becomes padding. */
  lemma AppendAgrees(c: seq<Cell>, s: seq<byte>, x: seq<byte>, clean: bool)
    requires Agree(c, s, 0, clean) && Align(|c|) + |x| <= |s| && (clean ==> Zero(s, |c|))
    ensures Agree(PadTo(c) + Cells(x), Patch(s, Align(|c|), x), 0, clean)
  {
    var c', s' := PadTo(c) + Cells(x), Patch(s, Align(|c|), x);
    forall i | 0 <= i < |c'| ensures Matches(c'[i], s'[0 + i], clean) {
      if i < |c| {
        assert Matches(c[i], s[0 + i], clean);
      }
    }
  }

  // ----- Attributes -----

  datatype Sub = NoSub | Sub(list: seq<Attr>)

  /** One entry of a tst_rtnl_attr_list. */
  datatype Attr = Attr(ty: nat, data: seq<byte>, sub: Sub)

  const RTA_HDR := 4
  const USHRT_MAX := 0xffff

  /** Both fields are 16 bits wide: what does not fit is cut off. */
  function AttrHdr(len: nat, ty: nat): (r: seq<byte>)
    ensures |r| == RTA_HDR
  {
    Put16(len % U16) + Put16(ty % U16)
  }

  /** What follows an attribute's header: its data, then its nested attributes. */
  function Inner(a: Attr): seq<Cell>
    decreases a, 0
  {
    match a.sub
    case NoSub => Cells(a.data)
    case Sub(list) => Append(Cells(a.data), list)
  }

  function Encode(a: Attr): seq<Cell>
    decreases a, 1
  {
    Cells(AttrHdr(RTA_HDR + |Inner(a)|, a.ty)) + Inner(a)
  }

  /** The cells with a list of attributes after them, each aligned. */
  function Append(c: seq<Cell>, list: seq<Attr>): seq<Cell>
    decreases list
  {
    if list == [] then c else Append(PadTo(c) + Encode(list[0]), list[1..])
  }

  /** Every attribute, with everything nested in it, has a length that its header can hold. */
  predicate Fits(list: seq<Attr>) {
    forall a | a in list :: FitsAttr(a)
  }

  predicate FitsAttr(a: Attr) {
    RTA_HDR + |Inner(a)| <= USHRT_MAX && (a.sub.Sub? ==> Fits(a.sub.list))
  }

  /** Appending does not look at an aligned beginning. */
  lemma {:induction false} AppendShift(p: seq<Cell>, c: seq<Cell>, list: seq<Attr>)
    requires |p| % 4 == 0
    ensures Append(p + c, list) == p + Append(c, list)
    decreases |list|
  {
    if list != [] {
      PadToShift(p, c);
      assert p + PadTo(c) + Encode(list[0]) == p + (PadTo(c) + Encode(list[0]));
      AppendShift(p, PadTo(c) + Encode(list[0]), list[1..]);
    }
  }

  lemma {:induction false} AppendGrows(c: seq<Cell>, list: seq<Attr>)
    ensures |c| <= |Append(c, list)|
    decreases |list|
  {
    if list != [] {
      AppendGrows(PadTo(c) + Encode(list[0]), list[1..]);
    }
  }

  // ----- Messages -----

  const NLMSG_HDR := 16
  const NLM_F_MULTI := 2
  const NLM_F_ACK := 4

  datatype Header = Header(len: nat, ty: nat, flags: nat, seqno: nat, pid: nat)

  function HeaderAt(s: seq<byte>, at: nat): Header
    requires at + NLMSG_HDR <= |s|
  {
    Header(Get32(s, at), Get16(s, at + 4), Get16(s, at + 6), Get32(s, at + 8), Get32(s, at + 12))
  }

  predicate GoodHeader(h: Header) {
    h.len < U32 && h.ty < U16 && h.flags < U16 && h.seqno < U32 && h.pid < U32
  }

  function PutHeader(h: Header): (r: seq<byte>)
    requires GoodHeader(h)
    ensures |r| == NLMSG_HDR
  {
    Put32(h.len) + Put16(h.ty) + Put16(h.flags) + Put32(h.seqno) + Put32(h.pid)
  }

  /** A message as it stands on the wire: the bytes of its header, and the cells after it. */
  datatype Msg = Msg(hdr: seq<byte>, body: seq<Cell>)

  /** The length field of the header is the length of the message. */
  predicate GoodMsg(m: Msg) {
    |m.hdr| == NLMSG_HDR && Get32(m.hdr, 0) == NLMSG_HDR + |m.body|
  }

  function MsgCells(m: Msg): (r: seq<Cell>)
    ensures |r| == |m.hdr| + |m.body|
  {
    Cells(m.hdr) + m.body
  }

  predicate GoodMsgs(ms: seq<Msg>) {
    forall i | 0 <= i < |ms| :: GoodMsg(ms[i])
  }

  /** Messages one after the other, each on an aligned offset; the last one is not padded. */
  function Stream(ms: seq<Msg>): seq<Cell> {
    if ms == [] then [] else PadTo(Stream(ms[..|ms| - 1])) + MsgCells(ms[|ms| - 1])
  }

  predicate HasFlag(flags: nat, bit: nat)
    requires bit > 0
  {
    flags / bit % 2 == 1
  }

  /** flags |= bit */
  function SetFlag(flags: nat, bit: nat): (r: nat)
    requires bit > 0
  {
    if HasFlag(flags, bit) then flags else flags + bit
  }

  lemma StreamSnoc(ms: seq<Msg>, m: Msg)
    ensures Stream(ms + [m]) == PadTo(Stream(ms)) + MsgCells(m)
  {
    assert (ms + [m])[..|ms|] == ms;
  }

  lemma StreamOne(m: Msg)
    ensures Stream([m]) == MsgCells(m)
  {
    StreamSnoc([], m);
    assert [] + [m] == [m];
    assert PadTo([]) + MsgCells(m) == MsgCells(m);
  }

  /** The stream read from the front: every message but the last is padded. */
  lemma {:induction false} StreamCons(m: Msg, ms: seq<Msg>)
    ensures Stream([m] + ms) == if ms == [] then MsgCells(m) else PadTo(MsgCells(m)) + Stream(ms)
    decreases |ms|
  {
    if ms == [] {
      StreamOne(m);
      assert [m] + ms == [m];
    } else {
      var front, last := ms[..|ms| - 1], ms[|ms| - 1];
      assert ms == front + [last] && [m] + ms == ([m] + front) + [last];
      StreamCons(m, front);
      StreamSnoc([m] + front, last);
      StreamSnoc(front, last);
      if front == [] {
        StreamOne(last);
      } else {
        PadToShift(PadTo(MsgCells(m)), Stream(front));
        Regroup(PadTo(MsgCells(m)), PadTo(Stream(front)), MsgCells(last));
      }
    }
  }

  lemma Regroup(a: seq<Cell>, b: seq<Cell>, c: seq<Cell>)
    ensures a + b + c == a + (b + c)
  {
  }

  // ----- Headers -----

  lemma Pieces(a: seq<byte>, b: seq<byte>, c: seq<byte>, d: seq<byte>, e: seq<byte>)
    requires |a| == 4 && |b| == 2 && |c| == 2 && |d| == 4 && |e| == 4
    ensures
      var h := a + b + c + d + e;
      h[0..4] == a && h[4..6] == b && h[6..8] == c && h[8..12] == d && h[12..16] == e
  {
  }

  /** Reading a header back. */
  lemma HeaderRoundTrip(h: Header)
    requires GoodHeader(h)
    ensures HeaderAt(PutHeader(h), 0) == h
  {
    var s := PutHeader(h);
    Pieces(Put32(h.len), Put16(h.ty), Put16(h.flags), Put32(h.seqno), Put32(h.pid));
    Get32Put32(s, 0, h.len);
    Get16Put16(s, 4, h.ty);
    Get16Put16(s, 6, h.flags);
    Get32Put32(s, 8, h.seqno);
    Get32Put32(s, 12, h.pid);
  }

  /** Reading from a copy. */
  lemma GetFromCopy(s: seq<byte>, at: nat, t: seq<byte>, i: nat)
    requires at + |t| <= |s| && forall k | 0 <= k < |t| :: s[at + k] == t[k]
    ensures i + 2 <= |t| ==> Get16(s, at + i) == Get16(t, i)
    ensures i + 4 <= |t| ==> Get32(s, at + i) == Get32(t, i)
  {
    if i + 2 <= |t| {
      assert s[at + i] == t[i] && s[at + (i + 1)] == t[i + 1];
    }
    if i + 4 <= |t| {
      assert s[at + (i + 2)] == t[i + 2] && s[at + (i + 3)] == t[i + 3];
    }
  }

  lemma HeaderFromCopy(s: seq<byte>, at: nat, t: seq<byte>)
    requires |t| == NLMSG_HDR && at + |t| <= |s| && forall k | 0 <= k < |t| :: s[at + k] == t[k]
    ensures HeaderAt(s, at) == HeaderAt(t, 0)
  {
    GetFromCopy(s, at, t, 0);
    GetFromCopy(s, at, t, 4);
    GetFromCopy(s, at, t, 6);
    GetFromCopy(s, at, t, 8);
    GetFromCopy(s, at, t, 12);
  }

  // ----- Writing header fields -----

  lemma PatchedSlice(h: seq<byte>, at: nat, x: seq<byte>)
    requires at + |x| <= |h|
    ensures Patch(h, at, x)[at..at + |x|] == x
  {
  }

  /** nlmsg_len = len */
  lemma SetLength(h: seq<byte>, len: nat)
    requires |h| == NLMSG_HDR && len < U32
    ensures HeaderAt(Patch(h, 0, Put32(len)), 0) == HeaderAt(h, 0).(len := len)
  {
    PatchedSlice(h, 0, Put32(len));
    Get32Put32(Patch(h, 0, Put32(len)), 0, len);
  }

  /** nlmsg_flags = flags */
  lemma SetFlags(h: seq<byte>, flags: nat)
    requires |h| == NLMSG_HDR && flags < U16
    ensures HeaderAt(Patch(h, 6, Put16(flags)), 0) == HeaderAt(h, 0).(flags := flags)
  {
    PatchedSlice(h, 6, Put16(flags));
    Get16Put16(Patch(h, 6, Put16(flags)), 6, flags);
  }

  // ----- Walking a buffer -----

  /** `size_left > 0 && NLMSG_OK` at offset `at` of n bytes. */
  predicate MsgOk(s: seq<byte>, n: nat, at: nat)
    requires n <= |s|
  {
    at + NLMSG_HDR <= n && NLMSG_HDR <= Get32(s, at) <= n - at
  }

  /** The messages an NLMSG_OK/NLMSG_NEXT loop visits in the first n bytes, by offset. */
  function Walk(s: seq<byte>, n: nat, at: nat): seq<nat>
    requires n <= |s|
    decreases n - at
  {
    if !MsgOk(s, n, at) then [] else [at] + Walk(s, n, at + Align(Get32(s, at)))
  }

  /** Message m stands at `at`: header and payload. */
  ghost predicate MsgAt(s: seq<byte>, at: nat, m: Msg) {
    Agree(MsgCells(m), s, at, false)
  }

  /** The offsets are those of the messages, one for one. */
  ghost predicate Visits(s: seq<byte>, offsets: seq<nat>, ms: seq<Msg>)
    decreases |ms|
  {
    if ms == [] then offsets == []
    else offsets != [] && MsgAt(s, offsets[0], ms[0]) && Visits(s, offsets[1..], ms[1..])
  }

  lemma {:induction false} VisitsAll(s: seq<byte>, offsets: seq<nat>, ms: seq<Msg>, i: nat)
    requires Visits(s, offsets, ms)
    ensures |offsets| == |ms| && (i < |ms| ==> MsgAt(s, offsets[i], ms[i]))
    decreases |ms|
  {
    if ms != [] {
      VisitsAll(s, offsets[1..], ms[1..], if i == 0 then 0 else i - 1);
    }
  }

  /** What a message that stands at `at` says in its header. */
  lemma HeaderStands(s: seq<byte>, at: nat, m: Msg)
    requires GoodMsg(m) && MsgAt(s, at, m)
    ensures at + NLMSG_HDR + |m.body| <= |s| && HeaderAt(s, at) == HeaderAt(m.hdr, 0)
    ensures Get32(s, at) == NLMSG_HDR + |m.body|
  {
    AgreeSplit(Cells(m.hdr), m.body, s, at, false);
    AgreeBytes(m.hdr, s, at, false);
    HeaderFromCopy(s, at, m.hdr);
  }

  lemma WalkStep(s: seq<byte>, n: nat, at: nat, m: Msg)
    requires GoodMsg(m) && MsgAt(s, at, m) && at + NLMSG_HDR + |m.body| <= n <= |s|
    ensures Walk(s, n, at) != [] && Walk(s, n, at)[0] == at
    ensures Walk(s, n, at)[1..] == Walk(s, n, at + Align(NLMSG_HDR + |m.body|))
  {
    HeaderStands(s, at, m);
  }

  lemma WalkLast(s: seq<byte>, n: nat, at: nat, m: Msg)
    requires GoodMsg(m) && MsgAt(s, at, m) && at + NLMSG_HDR + |m.body| == n <= |s|
    ensures Walk(s, n, at) != [] && Walk(s, n, at)[0] == at && Walk(s, n, at)[1..] == []
  {
    WalkStep(s, n, at, m);
  }

  lemma StreamHead(s: seq<byte>, at: nat, m: Msg, ms: seq<Msg>)
    requires GoodMsg(m) && Agree(Stream([m] + ms), s, at, false)
    ensures MsgAt(s, at, m)
    ensures ms == [] ==> |Stream([m] + ms)| == NLMSG_HDR + |m.body|
    ensures
      var step := Align(NLMSG_HDR + |m.body|);
      ms != [] ==> Agree(Stream(ms), s, at + step, false) && |Stream([m] + ms)| == step + |Stream(ms)|
  {
    StreamCons(m, ms);
    if ms != [] {
      var c := MsgCells(m);
      AgreeSplit(PadTo(c), Stream(ms), s, at, false);
      AgreeSplit(c, Pads(Align(|c|) - |c|), s, at, false);
    }
  }

  lemma {:induction false} WalkFrom(s: seq<byte>, n: nat, at: nat, ms: seq<Msg>)
    requires ms != [] && GoodMsgs(ms) && Agree(Stream(ms), s, at, false) && at + |Stream(ms)| == n <= |s|
    ensures Visits(s, Walk(s, n, at), ms)
    decreases |ms|
  {
    hide Stream, Agree, Walk, MsgAt, Align;
    var m, rest := ms[0], ms[1..];
    assert ms == [m] + rest;
    StreamHead(s, at, m, rest);
    if rest == [] {
      WalkLast(s, n, at, m);
    } else {
      WalkStep(s, n, at, m);
      WalkFrom(s, n, at + Align(NLMSG_HDR + |m.body|), rest);
    }
  }

  /** A walk over an encoded stream visits exactly its messages, in order. */
  lemma WalkVisitsStream(s: seq<byte>, ms: seq<Msg>, clean: bool)
    requires GoodMsgs(ms) && Agree(Stream(ms), s, 0, clean)
    ensures Visits(s, Walk(s, |Stream(ms)|, 0), ms)
  {
    if ms == [] {
      assert Walk(s, 0, 0) == [];
    } else {
      WalkFrom(s, |Stream(ms)|, 0, ms);
    }
  }
}
