/** Building a netlink message in place: a zeroed block of fixed size, a length field that only
    grows, and attributes written at its tail. */
module Message {
  import opened Errors
  import opened Bytes
  import opened Attributes
  import opened Wrappers

  datatype Header = Header(len: nat, typ: nat, flags: nat, seqno: nat, pid: nat)

  function Splice(s: seq<byte>, off: nat, d: seq<byte>): (s': seq<byte>)
    requires off + |d| <= |s|
    ensures |s'| == |s|
  {
    s[..off] + d + s[off + |d|..]
  }

  function Padded(s: seq<byte>): (s': seq<byte>)
    ensures |s'| == Align4(|s|) && s <= s'
  {
    s + Pad(|s|)
  }

  lemma ZerosSplit(m: nat, k: nat)
    requires k <= m
    ensures Zeros(m) == Zeros(k) + Zeros(m - k)
  {
  }

  /** Writing at the end of the used part of a zeroed block. */
  lemma SpliceTail(c: seq<byte>, m: nat, d: seq<byte>)
    requires |d| <= m
    ensures Splice(c + Zeros(m), |c|, d) == c + d + Zeros(m - |d|)
  {
  }

  /** The attribute header as four bytes. */
  function AttrHead(typ: nat, payloadLen: nat): (h: seq<byte>)
    ensures |h| == HDRLEN
  {
    Le16(Trunc16(HDRLEN + payloadLen)) + Le16(Trunc16(typ))
  }

  lemma AlignShift(n: nat)
    requires n >= NLMSG_HDRLEN
    ensures Align4(n) - NLMSG_HDRLEN == Align4(n - NLMSG_HDRLEN)
  {
  }

  /** What is left of `m` zero bytes behind content `c` once an attribute is appended. */
  function Left(c: seq<byte>, m: nat, attrlen: nat): int {
    |c| + m - Align4(|c|) - Align4(HDRLEN + attrlen)
  }

  lemma HeadOnZeros(c: seq<byte>, m: nat, typ: nat, attrlen: nat)
    requires Left(c, m, attrlen) >= 0
    ensures Splice(c + Zeros(m), Align4(|c|), AttrHead(typ, attrlen))
      == Padded(c) + EncodeAttr(typ, Zeros(attrlen)) + Zeros(Left(c, m, attrlen))
  {
    var p, total := Align4(|c|), Align4(HDRLEN + attrlen);
    ZerosSplit(m, p - |c|);
    assert c + Zeros(m) == Padded(c) + Zeros(m - (p - |c|));
    SpliceTail(Padded(c), m - (p - |c|), AttrHead(typ, attrlen));
    ZerosSplit(m - (p - |c|) - HDRLEN, total - HDRLEN);
    ZerosSplit(total - HDRLEN, attrlen);
  }

  /** The type found in memory after `nla_reserve`. The padding is cleared at the offset read back
      from the 16-bit length field; when the length wraps to 1, 2 or 3, that is inside the header
      and takes the type, or its upper byte, with it. */
  function StoredType(typ: nat, attrlen: nat): nat {
    var l := Trunc16(HDRLEN + attrlen);
    if l == 1 || l == 2 then 0 else if l == 3 then Trunc16(typ) % 0x100 else Trunc16(typ)
  }

  lemma HeadBytes(typ: nat, attrlen: nat)
    ensures var h, l, t := AttrHead(typ, attrlen), Trunc16(HDRLEN + attrlen), Trunc16(typ);
      h == [l % 0x100, l / 0x100, t % 0x100, t / 0x100]
  {
  }

  lemma SpliceInside(a: seq<byte>, b: seq<byte>, c: seq<byte>, off: nat, d: seq<byte>)
    requires off + |d| <= |b|
    ensures Splice(a + b + c, |a| + off, d) == a + Splice(b, off, d) + c
  {
  }

  lemma SpliceOnZeros(h: seq<byte>, n: nat, off: nat, k: nat)
    requires |h| <= off && off + k <= |h| + n
    ensures Splice(h + Zeros(n), off, Zeros(k)) == h + Zeros(n)
  {
  }

  /** The header under the clearing of the padding. */
  lemma ClearedHead(typ: nat, attrlen: nat)
    ensures var l, pad := Trunc16(HDRLEN + attrlen), Align4(HDRLEN + attrlen) - (HDRLEN + attrlen);
      && l <= HDRLEN + attrlen
      && (l < HDRLEN ==>
            && l + pad <= HDRLEN
            && Splice(AttrHead(typ, attrlen), l, Zeros(pad)) == AttrHead(StoredType(typ, attrlen), attrlen))
      && (l >= HDRLEN ==> AttrHead(StoredType(typ, attrlen), attrlen) == AttrHead(typ, attrlen))
  {
    var l, pad := Trunc16(HDRLEN + attrlen), Align4(HDRLEN + attrlen) - (HDRLEN + attrlen);
    HeadBytes(typ, attrlen);
    HeadBytes(StoredType(typ, attrlen), attrlen);
    hide AttrHead;
    PadOfWrapped(attrlen);
    if 0 < l < HDRLEN {
      assert Zeros(pad) == if l == 1 then [0, 0, 0] else if l == 2 then [0, 0] else [0];
    }
  }

  lemma PadOfWrapped(attrlen: nat)
    ensures var l, pad := Trunc16(HDRLEN + attrlen), Align4(HDRLEN + attrlen) - (HDRLEN + attrlen);
      (l == 0 ==> pad == 0) && (0 < l < HDRLEN ==> pad == HDRLEN - l)
  {
    var n := HDRLEN + attrlen;
    AlignPlus(0x4000 * (n / 0x1_0000), n % 0x1_0000);
  }

  lemma AlignPlus(k: nat, l: nat)
    ensures Align4(4 * k + l) == 4 * k + Align4(l)
  {
  }

  /** Clearing the padding where the stored length says it is. */
  lemma PaddingOnZeros(pre: seq<byte>, typ: nat, attrlen: nat, m: nat)
    ensures var s := pre + EncodeAttr(typ, Zeros(attrlen)) + Zeros(m);
      var at, pad := |pre| + Trunc16(HDRLEN + attrlen), Align4(HDRLEN + attrlen) - (HDRLEN + attrlen);
      && at + pad <= |s|
      && Splice(s, at, Zeros(pad)) == pre + EncodeAttr(StoredType(typ, attrlen), Zeros(attrlen)) + Zeros(m)
  {
    hide Splice, StoredType, Trunc16, Align4, AttrHead, EncodeAttr;
    var l, pad := Trunc16(HDRLEN + attrlen), Align4(HDRLEN + attrlen) - (HDRLEN + attrlen);
    var h, z := AttrHead(typ, attrlen), Zeros(attrlen + pad);
    EncodeZeros(typ, attrlen);
    EncodeZeros(StoredType(typ, attrlen), attrlen);
    ClearedHead(typ, attrlen);
    SpliceInside(pre, h + z, Zeros(m), l, Zeros(pad));
    if l < HDRLEN {
      SpliceInside([], h, z, l, Zeros(pad));
      assert [] + h + z == h + z;
    } else {
      SpliceOnZeros(h, attrlen + pad, l, pad);
    }
  }

  lemma EmptyAttr(typ: nat)
    ensures EncodeAttr(StoredType(typ, 0), []) == EncodeAttr(typ, []) && Align4(HDRLEN) == HDRLEN
  {
  }

  lemma TypeTruncated(typ: nat, payload: seq<byte>)
    ensures EncodeAttr(Trunc16(typ), payload) == EncodeAttr(typ, payload)
  {
  }

  lemma EncodeZeros(typ: nat, attrlen: nat)
    ensures var pad := Align4(HDRLEN + attrlen) - (HDRLEN + attrlen);
      EncodeAttr(typ, Zeros(attrlen)) == AttrHead(typ, attrlen) + Zeros(attrlen + pad)
  {
    ZerosSplit(attrlen + (Align4(HDRLEN + attrlen) - (HDRLEN + attrlen)), attrlen);
  }

  /** The payload written over its zeroes. */
  lemma PayloadOnZeros(pre: seq<byte>, typ: nat, data: seq<byte>, m: nat)
    ensures var s := pre + EncodeAttr(typ, Zeros(|data|)) + Zeros(m);
      && |pre| + HDRLEN + |data| <= |s|
      && Splice(s, |pre| + HDRLEN, data) == pre + EncodeAttr(typ, data) + Zeros(m)
  {
    var h, z := AttrHead(typ, |data|), Pad(HDRLEN + |data|);
    assert EncodeAttr(typ, Zeros(|data|)) == h + Zeros(|data|) + z;
    assert EncodeAttr(typ, data) == h + data + z;
  }

  /** Writing inside the used part leaves the zeroes behind it alone. */
  lemma SplicePrefix(c: seq<byte>, m: nat, off: nat, d: seq<byte>)
    requires off + |d| <= |c|
    ensures Splice(c + Zeros(m), off, d) == Splice(c, off, d) + Zeros(m)
  {
  }

  /** Patching a length and then padding is padding and then patching. */
  lemma PatchThenPad(c: seq<byte>, off: nat, w: seq<byte>)
    requires off + |w| <= |c|
    ensures Padded(Splice(c, off, w)) == Splice(Padded(c), off, w)
  {
    SplicePrefix(c, Align4(|c|) - |c|, off, w);
  }

  lemma PaddedIs(c: seq<byte>)
    ensures var pad := Align4(|c|) - |c|;
      Padded(c) == c + Zeros(pad) && (pad == 0 ==> Padded(c) == c) && RoundTo(pad, 0) == pad
  {
  }

  lemma AlignWithin(n: nat, size: nat)
    ensures n <= size && size % 4 == 0 ==> Align4(n) <= size
  {
  }

  class NlMsg {
    var hdr: Header
    var protocol: int
    const body: array<byte>
    ghost var image: seq<byte>

    function Size(): nat {
      NLMSG_HDRLEN + body.Length
    }

    /** The payload written so far. */
    ghost function Content(): seq<byte>
      reads this
      requires NLMSG_HDRLEN <= hdr.len <= NLMSG_HDRLEN + |image|
    {
      image[..hdr.len - NLMSG_HDRLEN]
    }

    /** The length stays within the block, and everything above it is still zero. */
    ghost predicate Valid()
      reads this, body
    {
      && image == body[..] && NLMSG_HDRLEN <= hdr.len <= Size()
      && image == Content() + Zeros(Size() - hdr.len)
    }

    lemma Bounds()
      requires Valid()
      ensures NLMSG_HDRLEN <= hdr.len <= Size() && |image| == body.Length && |Content()| == hdr.len - NLMSG_HDRLEN
    {
    }

    lemma Front()
      requires Valid()
      ensures |Content()| <= body.Length && body[..|Content()|] == Content()
      ensures forall i :: 0 <= i < |Content()| ==> body[i] == Content()[i]
    {
    }

    /** The block is `x` followed by zeroes up to its size. */
    lemma Holds(x: seq<byte>)
      requires image == body[..] && NLMSG_HDRLEN <= hdr.len <= Size() && |x| == hdr.len - NLMSG_HDRLEN
      requires image == x + Zeros(Size() - hdr.len)
      ensures Valid() && Content() == x
    {
    }

    constructor (len: nat)
      ensures Valid() && fresh(body) && Content() == [] && protocol == -1
      ensures Size() == (if len < NLMSG_HDRLEN then NLMSG_HDRLEN else len) && hdr == Header(NLMSG_HDRLEN, 0, 0, 0, 0)
    {
      var n := if len < NLMSG_HDRLEN then 0 else len - NLMSG_HDRLEN;
      body := new byte[n](_ => 0);
      image := Zeros(n);
      hdr, protocol := Header(NLMSG_HDRLEN, 0, 0, 0, 0), -1;
    }

    /** `memcpy` into the block. */
    method Store(off: nat, d: seq<byte>)
      requires image == body[..] && off + |d| <= body.Length
      modifies this`image, body
      ensures image == body[..] && image == Splice(old(image), off, d)
    {
      for k := 0 to |d|
        invariant body[..off] == old(image)[..off]
        invariant body[off..off + k] == d[..k]
        invariant body[off + k..] == old(image)[off + k..]
      {
        body[off + k] := d[k];
      }
      image := body[..];
    }

    /** `nlmsg_reserve`. */
    method Reserve(len: nat, pad: nat) returns (r: Option<nat>)
      requires Valid()
      modifies this`hdr
      ensures Valid()
      ensures var tlen := RoundTo(len, pad);
        if tlen + old(hdr.len) > Size() then r.None? && hdr == old(hdr)
        else r == Some(old(hdr.len) - NLMSG_HDRLEN) && hdr == old(hdr).(len := old(hdr.len) + tlen)
             && Content() == old(Content()) + Zeros(tlen)
    {
      var tlen := RoundTo(len, pad);
      if tlen + hdr.len > Size() {
        return None;
      }
      ZerosSplit(Size() - hdr.len, tlen);
      r := Some(hdr.len - NLMSG_HDRLEN);
      hdr := hdr.(len := hdr.len + tlen);
    }

    /** `nla_reserve`: refuses when old and new length together exceed the block; otherwise
        appends an attribute whose payload is still zero, under the type that survives. */
    method NlaReserve(typ: nat, attrlen: nat) returns (r: Option<nat>)
      requires Valid()
      modifies this`hdr, this`image, body
      ensures Valid()
      ensures var tlen := Align4(old(hdr.len)) + Align4(HDRLEN + attrlen);
        if tlen + old(hdr.len) > Size() then r.None? && hdr == old(hdr) && image == old(image)
        else r == Some(Align4(old(hdr.len)) - NLMSG_HDRLEN) && hdr == old(hdr).(len := tlen)
             && Content() == Padded(old(Content())) + EncodeAttr(StoredType(typ, attrlen), Zeros(attrlen))
    {
      hide Align4, EncodeAttr, Splice, Zeros, Padded, AttrHead;
      var tlen := Align4(hdr.len) + Align4(HDRLEN + attrlen);
      if tlen + hdr.len > Size() {
        return None;
      }
      var start := Align4(hdr.len) - NLMSG_HDRLEN;
      AlignShift(hdr.len);
      PutHead(start, typ, attrlen);
      TypeTruncated(typ, Zeros(attrlen));
      if attrlen > 0 {
        ClearPadding(start, attrlen, Padded(old(Content())), typ);
      }
      r := Some(start);
    }

    /** The header, and the room behind it. */
    method PutHead(start: nat, typ: nat, attrlen: nat)
      requires Valid() && start == Align4(hdr.len) - NLMSG_HDRLEN
      requires Align4(hdr.len) + Align4(HDRLEN + attrlen) <= Size()
      modifies this`hdr, this`image, body
      ensures Valid() && hdr == old(hdr).(len := Align4(old(hdr.len)) + Align4(HDRLEN + attrlen))
      ensures Content() == Padded(old(Content())) + EncodeAttr(typ, Zeros(attrlen))
    {
      hide Align4, EncodeAttr, Splice, Zeros, Padded, AttrHead;
      AlignShift(hdr.len);
      HeadOnZeros(Content(), Size() - hdr.len, typ, attrlen);
      Store(start, AttrHead(typ, attrlen));
      hdr := hdr.(len := Align4(hdr.len) + Align4(HDRLEN + attrlen));
      Holds(Padded(old(Content())) + EncodeAttr(typ, Zeros(attrlen)));
    }

    /** The `memset` of the padding, at the offset the length field gives. */
    method ClearPadding(start: nat, attrlen: nat, ghost pre: seq<byte>, ghost typ: nat)
      requires Valid() && start == |pre| && Content() == pre + EncodeAttr(typ, Zeros(attrlen))
      modifies this`image, body
      ensures Valid() && Content() == pre + EncodeAttr(StoredType(typ, attrlen), Zeros(attrlen))
    {
      hide Align4, EncodeAttr, Splice, Zeros, StoredType;
      PaddingOnZeros(pre, typ, attrlen, Size() - hdr.len);
      var pad := Align4(HDRLEN + attrlen) - (HDRLEN + attrlen);
      Store(start + Trunc16(HDRLEN + attrlen), Zeros(pad));
      Holds(pre + EncodeAttr(StoredType(typ, attrlen), Zeros(attrlen)));
    }

    /** `nla_put`: appends one attribute, or leaves the message exactly as it was. */
    method NlaPut(typ: nat, data: seq<byte>) returns (err: int)
      requires Valid()
      modifies this`hdr, this`image, body
      ensures Valid()
      ensures var tlen := Align4(old(hdr.len)) + Align4(HDRLEN + |data|);
        if tlen + old(hdr.len) > Size() then err == -NLE_NOMEM && hdr == old(hdr) && image == old(image)
        else err == 0 && hdr == old(hdr).(len := tlen)
             && Content() == Padded(old(Content())) + EncodeAttr(StoredType(typ, |data|), data)
    {
      hide Align4, EncodeAttr, Splice, Zeros, Padded;
      AlignShift(hdr.len);
      ghost var pre := Padded(Content());
      var nla := NlaReserve(typ, |data|);
      if nla.None? {
        return -NLE_NOMEM;
      }
      PutPayload(nla.value + HDRLEN, data, pre, StoredType(typ, |data|));
      err := 0;
    }

    /** The copy of the payload over its zeroes. */
    method PutPayload(at: nat, data: seq<byte>, ghost pre: seq<byte>, ghost typ: nat)
      requires Valid() && at == |pre| + HDRLEN && Content() == pre + EncodeAttr(typ, Zeros(|data|))
      modifies this`image, body
      ensures Valid() && Content() == pre + EncodeAttr(typ, data)
    {
      hide Align4, EncodeAttr, Splice, Zeros;
      PayloadOnZeros(pre, typ, data, Size() - hdr.len);
      Store(at, data);
      Holds(pre + EncodeAttr(typ, data));
    }

    /** A store inside the part already used. */
    method Overwrite(off: nat, d: seq<byte>)
      requires Valid() && off + |d| <= |Content()|
      modifies this`image, body
      ensures Valid() && Content() == Splice(old(Content()), off, d)
    {
      hide Splice, Zeros;
      SplicePrefix(Content(), Size() - hdr.len, off, d);
      Store(off, d);
      Holds(Splice(old(Content()), off, d));
    }

    /** `nla_nest_start`: an empty attribute, to be given its length later. */
    method NestStart(typ: nat) returns (start: Option<nat>)
      requires Valid()
      modifies this`hdr, this`image, body
      ensures Valid()
      ensures var tlen := Align4(old(hdr.len)) + HDRLEN;
        if tlen + old(hdr.len) > Size() then start.None? && hdr == old(hdr) && image == old(image)
        else start == Some(|Padded(old(Content()))|) && hdr == old(hdr).(len := tlen)
             && Content() == Padded(old(Content())) + EncodeAttr(typ, [])
    {
      hide Align4, EncodeAttr, Zeros, Padded;
      AlignShift(hdr.len);
      EmptyAttr(typ);
      var at := Align4(hdr.len) - NLMSG_HDRLEN;
      var err := NlaPut(typ, []);
      start := if err < 0 then None else Some(at);
    }

    /** `nla_nest_end`: writes the container's length and brings the message to a word boundary.
        `bug` is the failure the code calls impossible. */
    method NestEnd(start: nat) returns (bug: bool)
      requires Valid() && start + HDRLEN <= |Content()|
      modifies this`hdr, this`image, body
      ensures Valid() && (bug <==> Align4(old(hdr.len)) > Size())
      ensures Size() % 4 == 0 ==> !bug
      ensures !bug ==>
        && hdr == old(hdr).(len := Align4(old(hdr.len)))
        && Content() == Splice(Padded(old(Content())), start, Le16(Trunc16(|Padded(old(Content()))| - start)))
    {
      hide Align4, Splice, Zeros, Padded, Le16;
      AlignShift(hdr.len);
      var at := Align4(hdr.len) - NLMSG_HDRLEN;
      var w := Le16(Trunc16(at - start));
      PatchThenPad(Content(), start, w);
      Overwrite(start, w);
      bug := PadOut();
    }

    /** Padding to a word boundary, where there is something to pad. */
    method PadOut() returns (bug: bool)
      requires Valid()
      modifies this`hdr
      ensures Valid() && (bug <==> Align4(old(hdr.len)) > Size()) && (Size() % 4 == 0 ==> !bug)
      ensures !bug ==> hdr == old(hdr).(len := Align4(old(hdr.len))) && Content() == Padded(old(Content()))
    {
      hide Align4, Zeros, RoundTo, Padded, NlMsg.Valid;
      Bounds();
      AlignShift(hdr.len);
      AlignWithin(hdr.len, Size());
      PaddedIs(Content());
      var pad := Align4(hdr.len) - hdr.len;
      bug := false;
      if pad > 0 {
        var r := Reserve(pad, 0);
        bug := r.None?;
      }
    }
  }

  /** `__nlmsg_alloc`: an empty, zeroed message with room for at least a header, or nothing. */
  method AllocMsg(len: nat, memory: bool) returns (m: NlMsg?)
    ensures m == null <==> !memory
    ensures m != null ==>
      && fresh(m) && fresh(m.body) && m.Valid() && m.Content() == [] && m.protocol == -1
      && m.Size() == (if len < NLMSG_HDRLEN then NLMSG_HDRLEN else len) && m.hdr == Header(NLMSG_HDRLEN, 0, 0, 0, 0)
  {
    if !memory {
      return null;
    }
    m := new NlMsg(len);
  }
}
