/**
 What the in-place operations of lib/tst_rtnetlink.c do to the encoded stream: appending to the last message,
 patching its header and patching attribute lengths, related to the pure encoder of NetlinkWire.
 */
module Rtnetlink {
  import opened NetlinkWire

  /** Sizes stay below what `int size_left` can hold. */
  const LIMIT: int := 0x8000_0000

  // ----- The stream around its last message -----

  function Front(ms: seq<Msg>): seq<Msg>
    requires ms != []
  {
    ms[..|ms| - 1]
  }

  function Last(ms: seq<Msg>): Msg
    requires ms != []
  {
    ms[|ms| - 1]
  }

  function WithLast(ms: seq<Msg>, m: Msg): (r: seq<Msg>)
    requires ms != []
    ensures r != [] && Front(r) == Front(ms) && Last(r) == m
  {
    Front(ms) + [m]
  }

  /** The offset of the last message. */
  function LastAt(ms: seq<Msg>): nat
    requires ms != []
  {
    Align(|Stream(Front(ms))|)
  }

  lemma StreamOfLast(ms: seq<Msg>)
    requires ms != []
    ensures Stream(ms) == PadTo(Stream(Front(ms))) + Cells(Last(ms).hdr) + Last(ms).body
  {
    Regroup(PadTo(Stream(Front(ms))), Cells(Last(ms).hdr), Last(ms).body);
  }

  lemma StreamWithLast(ms: seq<Msg>, m: Msg)
    requires ms != []
    ensures Stream(WithLast(ms, m)) == PadTo(Stream(Front(ms))) + Cells(m.hdr) + m.body
  {
    StreamOfLast(WithLast(ms, m));
  }

  lemma CellsConcat(a: seq<byte>, b: seq<byte>)
    ensures Cells(a + b) == Cells(a) + Cells(b)
  {
  }

  lemma PatchMiddle(p: seq<Cell>, h: seq<byte>, q: seq<Cell>, at: nat, x: seq<byte>)
    requires at + |x| <= |h|
    ensures PatchCells(p + Cells(h) + q, |p| + at, x) == p + Cells(Patch(h, at, x)) + q
  {
  }

  lemma PatchThird(p: seq<Cell>, h: seq<Cell>, q: seq<Cell>, at: nat, x: seq<byte>)
    requires at + |x| <= |q|
    ensures PatchCells(p + h + q, |p| + |h| + at, x) == p + h + PatchCells(q, at, x)
  {
  }

  lemma StreamSize(ms: seq<Msg>)
    requires ms != []
    ensures |Stream(ms)| == LastAt(ms) + |Last(ms).hdr| + |Last(ms).body|
  {
    StreamOfLast(ms);
  }

  /** Writing into the header of the last message. */
  lemma PatchHeaderInStream(ms: seq<Msg>, at: nat, x: seq<byte>, c: seq<Cell>)
    requires ms != [] && at + |x| <= |Last(ms).hdr|
    requires c == Stream(ms) && LastAt(ms) + at + |x| <= |c|
    ensures
      PatchCells(c, LastAt(ms) + at, x) == Stream(WithLast(ms, Last(ms).(hdr := Patch(Last(ms).hdr, at, x))))
  {
    var m, p := Last(ms), PadTo(Stream(Front(ms)));
    StreamOfLast(ms);
    StreamWithLast(ms, m.(hdr := Patch(m.hdr, at, x)));
    PatchMiddle(p, m.hdr, m.body, at, x);
  }

  /** Writing into the body of the last message. */
  lemma PatchBodyInStream(ms: seq<Msg>, at: nat, x: seq<byte>, c: seq<Cell>)
    requires ms != [] && at + |x| <= |Last(ms).body|
    requires c == Stream(ms) && LastAt(ms) + |Last(ms).hdr| + at + |x| <= |c|
    ensures
      PatchCells(c, LastAt(ms) + |Last(ms).hdr| + at, x)
      == Stream(WithLast(ms, Last(ms).(body := PatchCells(Last(ms).body, at, x))))
  {
    var m, p := Last(ms), PadTo(Stream(Front(ms)));
    StreamOfLast(ms);
    StreamWithLast(ms, m.(body := PatchCells(m.body, at, x)));
    PatchThird(p, Cells(m.hdr), m.body, at, x);
  }

  lemma PaddedGrow(p: seq<Cell>, h: seq<Cell>, b: seq<Cell>, x: seq<Cell>)
    requires |p| % 4 == 0 && |h| == NLMSG_HDR
    ensures PadTo(p + h + b) + x == p + h + (PadTo(b) + x)
  {
    PadToShift(p + h, b);
    Regroup(p + h, PadTo(b), x);
  }

  /** The last message with more cells on the aligned end of its body. */
  function Longer(ms: seq<Msg>, x: seq<Cell>): seq<Msg>
    requires ms != []
  {
    WithLast(ms, Last(ms).(body := PadTo(Last(ms).body) + x))
  }

  lemma StreamLonger(ms: seq<Msg>, x: seq<Cell>)
    requires ms != [] && |Last(ms).hdr| == NLMSG_HDR
    ensures Stream(Longer(ms, x)) == PadTo(Stream(ms)) + x
  {
    var m := Last(ms);
    StreamOfLast(ms);
    PaddedGrow(PadTo(Stream(Front(ms))), Cells(m.hdr), m.body, x);
    StreamWithLast(ms, m.(body := PadTo(m.body) + x));
  }

  // ----- Coherence of buffer and stream -----

  /** The first datalen bytes hold the stream of `ms`; a clean buffer holds zeros everywhere else. */
  ghost predicate Coherent(buffer: seq<byte>, datalen: nat, ms: seq<Msg>, clean: bool) {
    && |buffer| % 4 == 0 && datalen < LIMIT
    && |Stream(ms)| == datalen && Agree(Stream(ms), buffer, 0, clean)
    && (clean ==> Zero(buffer, datalen))
  }

  lemma PatchKeepsZero(s: seq<byte>, from: nat, at: nat, x: seq<byte>)
    requires at + |x| <= |s| && Zero(s, from)
    ensures at + |x| <= from ==> Zero(Patch(s, at, x), from)
    ensures from <= at ==> Zero(Patch(s, at, x), at + |x|)
  {
  }

  /** Writing over counted bytes in a way that turns the stream of ms into the stream of ms'. */
  lemma PatchCoherent(buffer: seq<byte>, datalen: nat, ms: seq<Msg>, clean: bool, at: nat, x: seq<byte>, ms': seq<Msg>)
    requires Coherent(buffer, datalen, ms, clean) && at + |x| <= datalen
    requires PatchCells(Stream(ms), at, x) == Stream(ms')
    ensures Coherent(Patch(buffer, at, x), datalen, ms', clean)
  {
    PatchAgrees(Stream(ms), buffer, at, x, clean);
    if clean {
      PatchKeepsZero(buffer, datalen, at, x);
    }
  }

  /** Writing at the aligned end in a way that makes the stream longer by what is written. */
  lemma AppendCoherent(buffer: seq<byte>, datalen: nat, ms: seq<Msg>, clean: bool, x: seq<byte>, ms': seq<Msg>)
    requires Coherent(buffer, datalen, ms, clean) && Align(datalen) + |x| <= |buffer| && Align(datalen) + |x| < LIMIT
    requires Stream(ms') == PadTo(Stream(ms)) + Cells(x)
    ensures Coherent(Patch(buffer, Align(datalen), x), Align(datalen) + |x|, ms', clean)
  {
    AppendAgrees(Stream(ms), buffer, x, clean);
    if clean {
      PatchKeepsZero(buffer, datalen, Align(datalen), x);
    }
  }

  /** Counting fewer of the bytes last appended. */
  lemma ShortenCoherent(buffer: seq<byte>, datalen: nat, ms: seq<Msg>, clean: bool, n: nat, ms': seq<Msg>)
    requires Coherent(buffer, datalen, ms, clean) && n <= datalen && Stream(ms') == Stream(ms)[..n]
    ensures Coherent(buffer, n, ms', clean && n == datalen)
  {
    assert Stream(ms) == Stream(ms)[..n] + Stream(ms)[n..];
    AgreeSplit(Stream(ms)[..n], Stream(ms)[n..], buffer, 0, clean);
  }

  /** What the buffer says about the last message. */
  lemma ReadLast(buffer: seq<byte>, datalen: nat, ms: seq<Msg>, clean: bool)
    requires ms != [] && GoodMsg(Last(ms)) && Coherent(buffer, datalen, ms, clean)
    ensures LastAt(ms) + NLMSG_HDR + |Last(ms).body| == datalen <= |buffer|
    ensures HeaderAt(buffer, LastAt(ms)) == HeaderAt(Last(ms).hdr, 0)
  {
    var m, p := Last(ms), PadTo(Stream(Front(ms)));
    AgreeSplit(p, MsgCells(m), buffer, 0, clean);
    AgreeSplit(Cells(m.hdr), m.body, buffer, |p|, clean);
    AgreeBytes(m.hdr, buffer, |p|, clean);
    HeaderFromCopy(buffer, |p|, m.hdr);
  }

  lemma AlignAfterHeader(at: nat, n: nat)
    requires at % 4 == 0
    ensures Align(at + NLMSG_HDR + n) == at + NLMSG_HDR + Align(n)
  {
    AlignShift(at + NLMSG_HDR, n);
  }

  // ----- Attribute lists -----

  /** No data length for which RTA_LENGTH is cut off to 16 bits without the list being refused. */
  predicate NoWrap(list: seq<Attr>) {
    forall a | a in list ::
      !(USHRT_MAX - RTA_HDR < |a.data| <= USHRT_MAX) && (a.sub.Sub? ==> NoWrap(a.sub.list))
  }

  /** Room the attributes of a list take at most, aligned. */
  function Space(list: seq<Attr>): nat {
    if list == [] then 0 else SpaceOf(list[0]) + Space(list[1..])
  }

  function SpaceOf(a: Attr): nat {
    Align(RTA_HDR + |a.data|) + match a.sub case NoSub => 0 case Sub(list) => Space(list)
  }

  /** The header of a fresh attribute, then its data: the bytes add_attr writes. */
  function AttrBytes(ty: nat, data: seq<byte>): (r: seq<byte>)
    ensures |r| == RTA_HDR + |data|
  {
    AttrHdr(RTA_HDR + |data|, ty) + data
  }

  lemma FreshAttr(p: seq<Cell>, ty: nat, data: seq<byte>)
    ensures p + Cells(AttrBytes(ty, data)) == p + Cells(AttrHdr(RTA_HDR + |data|, ty)) + Cells(data)
  {
    CellsConcat(AttrHdr(RTA_HDR + |data|, ty), data);
    Regroup(p, Cells(AttrHdr(RTA_HDR + |data|, ty)), Cells(data));
  }

  lemma AppendAfterHeader(p: seq<Cell>, h: seq<Cell>, c: seq<Cell>, list: seq<Attr>)
    requires |p| % 4 == 0 && |h| == RTA_HDR
    ensures Append(p + h + c, list) == p + h + Append(c, list)
  {
    AppendShift(p + h, c, list);
  }

  lemma NestedGrows(p: seq<Cell>, a: Attr)
    requires a.sub.Sub? && |p| % 4 == 0
    ensures
      Append(p + Cells(AttrBytes(a.ty, a.data)), a.sub.list)
      == p + Cells(AttrHdr(RTA_HDR + |a.data|, a.ty)) + Inner(a)
  {
    FreshAttr(p, a.ty, a.data);
    AppendAfterHeader(p, Cells(AttrHdr(RTA_HDR + |a.data|, a.ty)), Cells(a.data), a.sub.list);
  }

  lemma PatchStart(a: seq<byte>, rest: seq<byte>, x: seq<byte>)
    requires |x| == |a|
    ensures Patch(a + rest, 0, x) == x + rest
  {
  }

  lemma PatchAttrLength(len: nat, ty: nat, len': nat)
    requires len' < U16
    ensures Patch(AttrHdr(len, ty), 0, Put16(len')) == AttrHdr(len', ty)
  {
    PatchStart(Put16(len % U16), Put16(ty % U16), Put16(len'));
  }

  /** The nested list follows the data, and the patched header is that of the whole attribute. */
  lemma NestedEncodes(b: seq<Cell>, a: Attr)
    requires a.sub.Sub? && RTA_HDR + |Inner(a)| < U16
    ensures
      var grown := Append(PadTo(b) + Cells(AttrBytes(a.ty, a.data)), a.sub.list);
      && |grown| == |PadTo(b)| + RTA_HDR + |Inner(a)|
      && PatchCells(grown, |PadTo(b)|, Put16(RTA_HDR + |Inner(a)|)) == PadTo(b) + Encode(a)
  {
    var p, h, len := PadTo(b), AttrHdr(RTA_HDR + |a.data|, a.ty), RTA_HDR + |Inner(a)|;
    NestedGrows(p, a);
    PatchMiddle(p, h, Inner(a), 0, Put16(len));
    PatchAttrLength(RTA_HDR + |a.data|, a.ty, len);
    Regroup(p, Cells(AttrHdr(len, a.ty)), Inner(a));
  }

  lemma FlatEncodes(a: Attr)
    requires a.sub.NoSub?
    ensures Cells(AttrBytes(a.ty, a.data)) == Encode(a)
  {
    CellsConcat(AttrHdr(RTA_HDR + |a.data|, a.ty), a.data);
  }
}
